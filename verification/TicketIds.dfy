/** Ticket ids: a random uuid, the socket's number and the controller's counter. */
module TicketIds {
  import opened Decimals

  const UINT64_COUNT := 0x1_0000_0000_0000_0000
  const UUID_SIZE: nat := 36
  const HEX := "0123456789abcdef"

  /** The shape of a generated id: dashes at 8, 13, 18, 23, a 4 at 12 and one of 8, 9, a, b
    * at 16. */
  predicate IsUuidChar(i: nat, c: char) {
    if i in {8, 13, 18, 23} then c == '-'
    else if i == 12 then c == '4'
    else if i == 16 then c in "89ab"
    else c in HEX
  }

  predicate IsUuid(u: string) {
    |u| == UUID_SIZE && forall i :: 0 <= i < UUID_SIZE ==> IsUuidChar(i, u[i])
  }

  predicate IsHex(c: char) {
    '0' <= c <= '9' || 'a' <= c <= 'f'
  }

  /** Five groups of 8, 4, 4, 4 and 12 hexadecimal digits with a 4 at the end of the second. So
    * it need not be a version-4 uuid of section 5.4 of RFC 9562, which has the 4 at index 14
    * and the digit with the variant's bits at index 19. */
  lemma UuidExactly(u: string)
    ensures IsUuid(u) <==>
              && |u| == 36
              && u[8] == u[13] == u[18] == u[23] == '-' && u[12] == '4' && '8' <= u[16] <= 'b' && IsHex(u[16])
              && forall i :: 0 <= i < 36 && i !in {8, 13, 18, 23} ==> IsHex(u[i])
  {
    assert forall c: char :: c in HEX <==> IsHex(c);
    if IsUuid(u) {
      assert IsUuidChar(8, u[8]) && IsUuidChar(13, u[13]) && IsUuidChar(18, u[18]) && IsUuidChar(23, u[23]);
      assert IsUuidChar(12, u[12]) && IsUuidChar(16, u[16]);
    }
  }

  lemma NotVersionFour()
    ensures exists u :: IsUuid(u) && u[14] != '4' && u[19] !in {'8', '9', 'a', 'b'}
  {
    var u := "00000000-0004-0080-0000-000000000000";
    UuidExactly(u);
    assert u[14] == '0' && u[19] == '0';
  }

  /** Whatever the random source yields, the result has the uuid shape. */
  method GenerateUuid() returns (uuid: string)
    ensures IsUuid(uuid)
  {
    uuid := [];
    for i := 0 to UUID_SIZE
      invariant |uuid| == i && forall k :: 0 <= k < i ==> IsUuidChar(k, uuid[k])
    {
      var dist: int := *;
      var c: char;
      if i == 8 || i == 13 || i == 18 || i == 23 {
        c := '-';
      } else if i == 12 {
        c := '4';
      } else if i == 16 {
        c := HEX[8 + dist % 4];
      } else {
        c := HEX[dist % 16];
      }
      uuid := uuid + [c];
    }
  }

  function TicketId(uuid: string, socketId: string, counter: nat): string {
    uuid + "/" + socketId + "#" + Decimal(counter)
  }

  /** Text up to a mark it does not hold, the mark, and a tail, can be taken apart. */
  lemma SplitAtMark(a: string, b: string, mark: char, x: string, y: string)
    requires mark !in a && mark !in b
    requires a + [mark] + x == b + [mark] + y
    ensures a == b && x == y
  {
    var left := a + [mark] + x;
    var right := b + [mark] + y;
    assert left[|a|] == mark && right[|b|] == mark;
    if |a| < |b| {
      assert false;
    } else if |b| < |a| {
      assert false;
    } else {
      assert a == left[..|a|] && b == right[..|a|];
      assert x == left[|a| + 1..] && y == right[|a| + 1..];
    }
  }

  lemma PartsOfId(u1: string, d1: string, e1: string, u2: string, d2: string, e2: string)
    requires |u1| == |u2| && '#' !in d1 && '#' !in d2
    requires u1 + "/" + d1 + "#" + e1 == u2 + "/" + d2 + "#" + e2
    ensures u1 == u2 && d1 == d2 && e1 == e2
  {
    var n := |u1|;
    var t1 := d1 + "#" + e1;
    var t2 := d2 + "#" + e2;
    assert u1 + "/" + d1 + "#" + e1 == u1 + "/" + t1;
    assert u2 + "/" + d2 + "#" + e2 == u2 + "/" + t2;
    assert u1 == (u1 + "/" + t1)[..n] && u2 == (u2 + "/" + t2)[..n];
    assert t1 == (u1 + "/" + t1)[n + 1..] && t2 == (u2 + "/" + t2)[n + 1..];
    SplitAtMark(d1, d2, '#', e1, e2);
  }

  /** The id string determines all three parts it is printed from. */
  lemma TicketIdInjective(u1: string, s1: nat, c1: nat, u2: string, s2: nat, c2: nat)
    requires |u1| == |u2| == UUID_SIZE
    ensures TicketId(u1, Decimal(s1), c1) == TicketId(u2, Decimal(s2), c2) <==> u1 == u2 && s1 == s2 && c1 == c2
  {
    if TicketId(u1, Decimal(s1), c1) == TicketId(u2, Decimal(s2), c2) {
      PartsOfId(u1, Decimal(s1), Decimal(c1), u2, Decimal(s2), Decimal(c2));
      DecimalInjective(s1, s2);
      DecimalInjective(c1, c2);
    }
  }

  /** The n-th id of a controller carries n modulo 2^64. */
  ghost predicate IssuedIds(ids: seq<string>, uuids: seq<string>, socket: nat) {
    && |ids| == |uuids|
    && (forall i :: 0 <= i < |uuids| ==> |uuids[i]| == UUID_SIZE)
    && forall i :: 0 <= i < |ids| ==> ids[i] == TicketId(uuids[i], Decimal(socket), i % UINT64_COUNT)
  }

  lemma SameResidue(i: nat, j: nat)
    requires i <= j
    ensures i % UINT64_COUNT == j % UINT64_COUNT <==> (j - i) % UINT64_COUNT == 0
  {
  }

  /** Two ids of one controller collide exactly when the counter has wrapped around between
    * them and the random source repeated itself. */
  lemma CollisionExactly(ids: seq<string>, uuids: seq<string>, socket: nat, i: nat, j: nat)
    requires IssuedIds(ids, uuids, socket) && i < j < |ids|
    ensures ids[i] == ids[j] <==> uuids[i] == uuids[j] && (j - i) % UINT64_COUNT == 0
  {
    SameResidue(i, j);
    TicketIdInjective(uuids[i], socket, i % UINT64_COUNT, uuids[j], socket, j % UINT64_COUNT);
  }

  /** So the first 2^64 ids are pairwise different, whatever was drawn. */
  lemma IdsAreDistinct(ids: seq<string>, uuids: seq<string>, socket: nat)
    requires IssuedIds(ids, uuids, socket) && |ids| <= UINT64_COUNT
    ensures forall i, j :: 0 <= i < j < |ids| ==> ids[i] != ids[j]
  {
    forall i, j | 0 <= i < j < |ids|
      ensures ids[i] != ids[j]
    {
      CollisionExactly(ids, uuids, socket, i, j);
    }
  }

  lemma NextCounter(n: nat)
    ensures (n % UINT64_COUNT + 1) % UINT64_COUNT == (n + 1) % UINT64_COUNT
  {
  }

  /** Issuing one more id keeps the record, and until the counter wraps the id is new. */
  lemma IssueNext(ids: seq<string>, uuids: seq<string>, socket: nat, uuid: string)
    requires IssuedIds(ids, uuids, socket) && |uuid| == UUID_SIZE
    ensures var id := TicketId(uuid, Decimal(socket), |ids| % UINT64_COUNT);
            && IssuedIds(ids + [id], uuids + [uuid], socket)
            && (|ids| < UINT64_COUNT ==> id !in ids)
  {
    hide TicketId, Decimal;
    var all := ids + [TicketId(uuid, Decimal(socket), |ids| % UINT64_COUNT)];
    if |ids| < UINT64_COUNT {
      IdsAreDistinct(all, uuids + [uuid], socket);
      assert forall i :: 0 <= i < |ids| ==> ids[i] == all[i] != all[|ids|];
    }
  }
}
