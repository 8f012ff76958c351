/** Remote paths: std::filesystem::path in POSIX form, its lexical normal form, and the
  * directory a path means. */
module FtpPaths {
  import opened Wrappers

  /** A file name of a path. One that holds a line break would end its command line early
    * and is left out. */
  predicate IsName(s: string) {
    s != "" && '/' !in s && '\r' !in s && '\n' !in s
  }

  type Name = s: string | IsName(s) witness "a"

  const DOT: Name := "."
  const DOTDOT: Name := ".."

  predicate IsRegular(s: string) {
    s != "" && s != DOT && s != DOTDOT
  }

  /** The parsed generic format: a root directory or not, the file names, and whether a
    * separator follows the last of them. */
  datatype Path = Path(root: bool, names: seq<Name>, trailing: bool) {

    predicate Valid() {
      trailing ==> names != []
    }

    predicate IsEmpty() {
      !root && names == []
    }

    function Filename(): string {
      if names == [] || trailing then "" else names[|names| - 1]
    }

    function ParentPath(): Path {
      if trailing then Path(root, names, false)
      else if names == [] then this
      else Path(root, names[..|names| - 1], false)
    }

    /** get_last_component. */
    function LastComponent(): string {
      if Filename() == "" then ParentPath().Filename() else Filename()
    }

    /** The elements iteration yields after the root directory. */
    function RelativeElements(): seq<string> {
      if trailing then names + [""] else names
    }
  }

  type ValidPath = p: Path | p.Valid() witness Path(true, [], false)

  predicate NoDots(names: seq<Name>) {
    forall i :: 0 <= i < |names| ==> names[i] != DOT
  }

  // ---- The normal form, rule by rule ([fs.path.generic] of ISO C++23) ----

  function DropDots(names: seq<Name>): (r: seq<Name>)
    ensures NoDots(r)
  {
    if names == [] then []
    else (if names[0] == DOT then [] else [names[0]]) + DropDots(names[1..])
  }

  /** The first name that is not dot-dot and is followed by dot-dot. */
  function FirstPair(names: seq<Name>, from: nat): (r: Option<nat>)
    ensures r.Some? ==> from <= r.value < |names| - 1 && names[r.value] != DOTDOT && names[r.value + 1] == DOTDOT
    ensures r.None? ==> forall i :: from <= i < |names| - 1 ==> names[i] == DOTDOT || names[i + 1] != DOTDOT
    decreases |names| - from
  {
    if from + 1 >= |names| then None
    else if names[from] != DOTDOT && names[from + 1] == DOTDOT then Some(from)
    else FirstPair(names, from + 1)
  }

  /** Removing such pairs as long as there are any. A pair at the very end takes no
    * separator with it, so the one before it is left trailing. */
  function CancelPairs(names: seq<Name>, trailing: bool): (seq<Name>, bool)
    decreases |names|
  {
    match FirstPair(names, 0)
    case None => (names, trailing)
    case Some(i) =>
      var rest := names[..i] + names[i + 2..];
      CancelPairs(rest, (trailing || i + 2 == |names|) && rest != [])
  }

  function DropLeadingUps(names: seq<Name>): seq<Name> {
    if names != [] && names[0] == DOTDOT then DropLeadingUps(names[1..]) else names
  }

  /** The names and the trailing separator after dots and pairs are gone. */
  function Cancelled(p: Path): (seq<Name>, bool) {
    var names := DropDots(p.names);
    CancelPairs(names, (p.trailing || EndsIn(p.names, DOT)) && names != [])
  }

  /** lexically_normal. */
  function Normalize(p: Path): (r: ValidPath)
    ensures r.root == p.root
  {
    if p.IsEmpty() then Path(false, [], false)
    else
      var (kept, separator) := Cancelled(p);
      var final := if p.root then DropLeadingUps(kept) else kept;
      if final == [] then Path(p.root, if p.root then [] else [DOT], false)
      else Path(p.root, final, separator && final[|final| - 1] != DOTDOT)
  }

  predicate EndsIn(names: seq<Name>, name: Name) {
    names != [] && names[|names| - 1] == name
  }

  function RegularOnes(elements: seq<string>): seq<string> {
    if elements == [] then []
    else (if elements[0] == DOT || elements[0] == DOTDOT then [] else [elements[0]]) + RegularOnes(elements[1..])
  }

  /** The components the navigator works with; an empty one after a trailing separator is
    * kept. */
  function Components(p: Path): seq<string> {
    RegularOnes(p.RelativeElements())
  }

  lemma OneMoreElement(elements: seq<string>, i: nat)
    requires i < |elements|
    ensures RegularOnes(elements[..i + 1])
         == RegularOnes(elements[..i]) + if elements[i] == DOT || elements[i] == DOTDOT then [] else [elements[i]]
  {
    assert elements[..i + 1] == elements[..i] + [elements[i]];
    RegularOnesAppend(elements[..i], [elements[i]]);
    assert [elements[i]][1..] == [];
  }

  /** split: the same by a loop over the elements. */
  method Split(p: Path) returns (parts: seq<string>)
    ensures parts == Components(p)
  {
    parts := [];
    var elements := p.RelativeElements();
    for i := 0 to |elements|
      invariant parts == RegularOnes(elements[..i])
    {
      OneMoreElement(elements, i);
      if elements[i] != DOT && elements[i] != DOTDOT {
        parts := parts + [elements[i]];
      }
    }
    assert elements[..|elements|] == elements;
  }

  // ---- The directory a path means ----

  function StepInto(dir: seq<string>, name: string): seq<string> {
    if name == DOT then dir
    else if name == DOTDOT then (if dir == [] then [] else dir[..|dir| - 1])
    else dir + [name]
  }

  /** Following names one by one from a directory, dot-dot staying at the root. */
  function Walk(dir: seq<string>, names: seq<string>): seq<string>
    decreases |names|
  {
    if names == [] then dir else Walk(StepInto(dir, names[0]), names[1..])
  }

  function Meaning(p: Path): seq<string> {
    Walk([], p.names)
  }

  lemma {:induction false} WalkAppend(dir: seq<string>, a: seq<string>, b: seq<string>)
    ensures Walk(dir, a + b) == Walk(Walk(dir, a), b)
    decreases |a|
  {
    if a == [] {
      assert a + b == b;
    } else {
      assert (a + b)[1..] == a[1..] + b;
      WalkAppend(StepInto(dir, a[0]), a[1..], b);
    }
  }

  lemma {:induction false} WalkDropsDots(dir: seq<string>, names: seq<Name>)
    ensures Walk(dir, DropDots(names)) == Walk(dir, names)
    decreases |names|
  {
    if names != [] {
      WalkDropsDots(StepInto(dir, names[0]), names[1..]);
      if names[0] == DOT {
        assert DropDots(names) == DropDots(names[1..]);
      } else {
        assert DropDots(names)[1..] == DropDots(names[1..]);
      }
    }
  }

  lemma WalkSkipsPair(dir: seq<string>, names: seq<Name>, i: nat)
    requires NoDots(names) && i + 1 < |names| && names[i] != DOTDOT && names[i + 1] == DOTDOT
    ensures Walk(dir, names) == Walk(dir, names[..i] + names[i + 2..])
  {
    var here := Walk(dir, names[..i]);
    assert names == names[..i] + ([names[i], DOTDOT] + names[i + 2..]);
    WalkAppend(dir, names[..i], [names[i], DOTDOT] + names[i + 2..]);
    WalkAppend(here, [names[i], DOTDOT], names[i + 2..]);
    assert (here + [names[i]])[..|here|] == here;
    assert [names[i], DOTDOT][1..] == [DOTDOT] && [DOTDOT][1..] == [];
    assert Walk(here, [names[i], DOTDOT]) == Walk(here + [names[i]], [DOTDOT]) == here;
    WalkAppend(dir, names[..i], names[i + 2..]);
  }

  predicate AllRegular(names: seq<string>) {
    forall i :: 0 <= i < |names| ==> IsRegular(names[i])
  }

  /** Dot-dots, then regular names. */
  predicate UpsThenNames(names: seq<Name>) {
    if names == [] then true
    else if names[0] == DOTDOT then UpsThenNames(names[1..])
    else AllRegular(names)
  }

  lemma {:induction false} NoPairLeft(names: seq<Name>)
    requires NoDots(names)
    requires forall i :: 0 <= i < |names| - 1 ==> names[i] == DOTDOT || names[i + 1] != DOTDOT
    ensures UpsThenNames(names)
    decreases |names|
  {
    if |names| > 1 {
      assert forall i :: 0 <= i < |names| - 2 ==> names[1..][i] == names[i + 1];
      NoPairLeft(names[1..]);
    }
  }

  /** Cancelling keeps the meaning, reaches the normal shape, and leaves a trailing separator
    * just when there was one or the last name was a cancelled dot-dot. */
  lemma {:induction false} CancelKeepsMeaning(dir: seq<string>, names: seq<Name>, trailing: bool)
    requires NoDots(names)
    ensures var (kept, separator) := CancelPairs(names, trailing);
            && UpsThenNames(kept)
            && Walk(dir, kept) == Walk(dir, names)
            && (kept != [] && kept[|kept| - 1] != DOTDOT ==>
                  (separator <==> trailing || EndsIn(names, DOTDOT)))
    decreases |names|
  {
    hide Walk, FirstPair, UpsThenNames;
    match FirstPair(names, 0)
    case None => NoPairLeft(names);
    case Some(i) =>
      var rest := names[..i] + names[i + 2..];
      WalkSkipsPair(dir, names, i);
      CancelKeepsMeaning(dir, rest, (trailing || i + 2 == |names|) && rest != []);
  }

  predicate NoDotNames(names: seq<string>) {
    forall i :: 0 <= i < |names| ==> names[i] != DOT && names[i] != DOTDOT
  }

  lemma {:induction false} WalkRegular(dir: seq<string>, names: seq<string>)
    requires NoDotNames(names)
    ensures Walk(dir, names) == dir + names
    decreases |names|
  {
    if names != [] {
      WalkRegular(dir + [names[0]], names[1..]);
    }
  }

  lemma {:induction false} RegularOnesAll(names: seq<string>)
    requires NoDotNames(names)
    ensures RegularOnes(names) == names
  {
    if names != [] {
      RegularOnesAll(names[1..]);
    }
  }

  lemma {:induction false} RegularOnesAppend(a: seq<string>, b: seq<string>)
    ensures RegularOnes(a + b) == RegularOnes(a) + RegularOnes(b)
  {
    if a == [] {
      assert a + b == b;
    } else {
      RegularOnesAppend(a[1..], b);
      var first := if a[0] == DOT || a[0] == DOTDOT then [] else [a[0]];
      assert (a + b)[0] == a[0] && (a + b)[1..] == a[1..] + b;
      assert RegularOnes(a + b) == first + (RegularOnes(a[1..]) + RegularOnes(b));
      assert RegularOnes(a) == first + RegularOnes(a[1..]);
    }
  }

  /** In the normal shape the regular names are what a walk from the root reaches, and what
    * remains when leading dot-dots are dropped; there are any just when the last one is. */
  lemma {:induction false} ShapeMeaning(names: seq<Name>)
    requires UpsThenNames(names)
    ensures var regular := DropLeadingUps(names);
            && Walk([], names) == RegularOnes(names) == regular
            && AllRegular(regular)
            && (regular != [] <==> names != [] && names[|names| - 1] != DOTDOT)
    decreases |names|
  {
    if names != [] {
      if names[0] == DOTDOT {
        ShapeMeaning(names[1..]);
      } else {
        WalkRegular([], names);
        RegularOnesAll(names);
      }
    }
  }

  lemma {:induction false} DropDotsEnd(names: seq<Name>)
    requires names != [] && names[|names| - 1] != DOT
    ensures EndsIn(DropDots(names), names[|names| - 1])
  {
    if |names| > 1 {
      DropDotsEnd(names[1..]);
    }
  }

  /** Whether a trailing separator survives normalisation can be read off the raw path: its
    * last element is empty, dot or dot-dot, and it does not mean the root. */
  ghost predicate LeavesSeparator(p: Path) {
    (p.trailing || EndsIn(p.names, DOT) || EndsIn(p.names, DOTDOT)) && Meaning(p) != []
  }

  /** What cancelling leaves of a path: its meaning, and the separator in terms of the raw
    * path. */
  lemma CancelledForm(p: ValidPath)
    ensures var (kept, separator) := Cancelled(p);
            && UpsThenNames(kept) && DropLeadingUps(kept) == Meaning(p) == RegularOnes(kept)
            && (Meaning(p) != [] <==> kept != [] && kept[|kept| - 1] != DOTDOT)
            && (Meaning(p) != [] ==> (separator <==> LeavesSeparator(p)))
  {
    var names := DropDots(p.names);
    var open := (p.trailing || EndsIn(p.names, DOT)) && names != [];
    hide CancelPairs, DropDots, RegularOnes, DropLeadingUps, UpsThenNames;
    WalkDropsDots([], p.names);
    CancelKeepsMeaning([], names, open);
    ShapeMeaning(CancelPairs(names, open).0);
    if p.names != [] && p.names[|p.names| - 1] != DOT {
      DropDotsEnd(p.names);
    }
  }

  lemma NormalNames(p: ValidPath)
    ensures RegularOnes(Normalize(p).names) == Meaning(p)
    ensures Normalize(p).trailing <==> LeavesSeparator(p)
  {
    CancelledForm(p);
    assert Meaning(p) == [] ==> !LeavesSeparator(p);
    hide Cancelled, LeavesSeparator;
    var kept := Cancelled(p).0;
    ShapeMeaning(kept);
    RegularOnesAll(DropLeadingUps(kept));
    assert RegularOnes([DOT]) == [] by { assert [DOT][1..] == []; }
    if DropLeadingUps(kept) != [] {
      LastKept(kept);
    }
  }

  lemma {:induction false} LastKept(names: seq<Name>)
    requires DropLeadingUps(names) != []
    ensures EndsIn(DropLeadingUps(names), names[|names| - 1])
  {
    if names[0] == DOTDOT {
      LastKept(names[1..]);
    }
  }

  lemma AbsoluteNormalIsRegular(p: ValidPath)
    requires p.root
    ensures AllRegular(Normalize(p).names)
  {
    CancelledForm(p);
    ShapeMeaning(Cancelled(p).0);
  }

  /** Normalising keeps the directory a path means exactly when no trailing separator is left;
    * otherwise one empty component follows it. */
  lemma NormalisationKeepsMeaningExactly(p: ValidPath)
    ensures Components(Normalize(p)) == Meaning(p) + if LeavesSeparator(p) then [""] else []
    ensures Components(Normalize(p)) == Meaning(p) <==> !LeavesSeparator(p)
  {
    NormalNames(p);
    var q := Normalize(p);
    var tail := if q.trailing then [""] else [];
    assert RegularOnes([""]) == [""] by { assert [""][1..] == []; }
    assert q.RelativeElements() == q.names + tail;
    RegularOnesAppend(q.names, tail);
  }

  /** The path /a/../b/. becomes /b/ and means the directory b. */
  lemma NormalizeExample()
    ensures var p := Path(true, ["a", "..", "b", "."], false);
            Normalize(p) == Path(true, ["b"], true) && Meaning(p) == ["b"]
  {
    var p := Path(true, ["a", "..", "b", "."], false);
    var names: seq<Name> := ["a", "..", "b"];
    assert DropDots(p.names) == names;
    assert FirstPair(names, 0) == Some(0);
    assert names[..0] + names[2..] == ["b"];
    assert CancelPairs(names, true) == CancelPairs(["b"], true) == (["b"], true);
  }
}
