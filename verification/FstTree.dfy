/** The file system table of a disc: a directory tree flattened in preorder, and the stack that walks it. */
module FstTree {

  /** An entry: for a file its start in words and its length in bytes, for a directory its parent and the index
      of the first entry behind it. */
  datatype FEntry = FEntry(isDir: bool, nameOffset: nat, offset: nat, length: nat)

  /** The shape of a list of sibling entries. */
  datatype Forest = Nil | FileNode(rest: Forest) | DirNode(inner: Forest, rest: Forest)

  function Size(f: Forest): nat {
    match f
    case Nil => 0
    case FileNode(rest) => 1 + Size(rest)
    case DirNode(inner, rest) => 1 + Size(inner) + Size(rest)
  }

  function Max(a: nat, b: nat): nat {
    if a < b then b else a
  }

  // How deep directories are nested; an empty one does not count, as the walk skips it.
  function Depth(f: Forest): nat {
    match f
    case Nil => 0
    case FileNode(rest) => Depth(rest)
    case DirNode(inner, rest) => Max(if inner == Nil then 0 else 1 + Depth(inner), Depth(rest))
  }

  /** fe holds the forest in preorder from index at on. */
  ghost predicate Encodes(fe: seq<FEntry>, f: Forest, at: nat) {
    at + Size(f) <= |fe|
    && match f
       case Nil => true
       case FileNode(rest) => !fe[at].isDir && Encodes(fe, rest, at + 1)
       case DirNode(inner, rest) =>
         && fe[at].isDir && fe[at].length == at + 1 + Size(inner)
         && Encodes(fe, inner, at + 1) && Encodes(fe, rest, at + 1 + Size(inner))
  }

  /** The directories around entry i, outermost first. */
  function Ancestors(f: Forest, at: nat, i: nat): seq<nat>
    requires at <= i <= at + Size(f)
  {
    match f
    case Nil => []
    case FileNode(rest) => if i == at then [] else Ancestors(rest, at + 1, i)
    case DirNode(inner, rest) =>
      var end := at + 1 + Size(inner);
      if i == at then []
      else if i < end then [at] + Ancestors(inner, at + 1, i)
      else Ancestors(rest, end, i)
  }

  // The directories that end just in front of entry i, outermost first.
  function Closing(f: Forest, at: nat, i: nat): seq<nat>
    requires at <= i <= at + Size(f)
  {
    match f
    case Nil => []
    case FileNode(rest) => if i == at then [] else Closing(rest, at + 1, i)
    case DirNode(inner, rest) =>
      var end := at + 1 + Size(inner);
      if i == at then []
      else if i < end then Closing(inner, at + 1, i)
      else if i == end && inner != Nil then [at] + Closing(inner, at + 1, i)
      else Closing(rest, end, i)
  }

  // At the end of a forest none of its directories is open any more.
  lemma {:induction false} NoneAtEnd(f: Forest, at: nat)
    ensures Ancestors(f, at, at + Size(f)) == []
  {
    match f
    case Nil =>
    case FileNode(rest) => NoneAtEnd(rest, at + 1);
    case DirNode(inner, rest) => NoneAtEnd(rest, at + 1 + Size(inner));
  }

  lemma {:induction false} NoneAtStart(f: Forest, at: nat)
    ensures Ancestors(f, at, at) == [] && Closing(f, at, at) == []
  {
  }

  // The directories around an entry end behind it, the closing ones at it; all begin in front of it.
  ghost predicate DirsEnd(fe: seq<FEntry>, s: seq<nat>, at: nat, i: nat, closed: bool) {
    forall k :: 0 <= k < |s| ==>
      at <= s[k] < i && s[k] < |fe| && fe[s[k]].isDir && if closed then fe[s[k]].length == i else i < fe[s[k]].length
  }

  lemma {:induction false} AncestorsEnd(fe: seq<FEntry>, f: Forest, at: nat, i: nat)
    requires Encodes(fe, f, at) && at <= i <= at + Size(f)
    ensures DirsEnd(fe, Ancestors(f, at, i), at, i, false)
  {
    match f
    case Nil =>
    case FileNode(rest) =>
      if i != at {
        AncestorsEnd(fe, rest, at + 1, i);
      }
    case DirNode(inner, rest) =>
      var end := at + 1 + Size(inner);
      if at < i <= end {
        AncestorsEnd(fe, inner, at + 1, i);
      }
      if end <= i {
        AncestorsEnd(fe, rest, end, i);
      }
  }

  lemma {:induction false} ClosingEnd(fe: seq<FEntry>, f: Forest, at: nat, i: nat)
    requires Encodes(fe, f, at) && at <= i <= at + Size(f)
    ensures DirsEnd(fe, Closing(f, at, i), at, i, true)
  {
    match f
    case Nil =>
    case FileNode(rest) =>
      if i != at {
        ClosingEnd(fe, rest, at + 1, i);
      }
    case DirNode(inner, rest) =>
      var end := at + 1 + Size(inner);
      if at < i <= end {
        ClosingEnd(fe, inner, at + 1, i);
      }
      if end <= i {
        ClosingEnd(fe, rest, end, i);
      }
  }

  lemma WhereDirsEnd(fe: seq<FEntry>, f: Forest, at: nat, i: nat)
    requires Encodes(fe, f, at) && at <= i <= at + Size(f)
    ensures DirsEnd(fe, Ancestors(f, at, i), at, i, false) && DirsEnd(fe, Closing(f, at, i), at, i, true)
  {
    AncestorsEnd(fe, f, at, i);
    ClosingEnd(fe, f, at, i);
  }

  // Does the walk push entry i?
  predicate Pushed(fe: seq<FEntry>, i: nat)
    requires i < |fe|
  {
    fe[i].isDir && fe[i].length != i + 1
  }

  function PushOf(fe: seq<FEntry>, i: nat): seq<nat>
    requires i < |fe|
  {
    if Pushed(fe, i) then [i] else []
  }

  /** One step of the walk: the stack at entry i + 1, before it is popped, is the one around entry i, with i on it if it
      is a directory that is not empty. */
  lemma {:induction false} StackStep(fe: seq<FEntry>, f: Forest, at: nat, i: nat)
    requires Encodes(fe, f, at) && at <= i < at + Size(f)
    ensures Ancestors(f, at, i + 1) + Closing(f, at, i + 1) == Ancestors(f, at, i) + PushOf(fe, i)
    decreases f
  {
    match f
    case Nil =>
    case FileNode(rest) =>
      if i == at {
        NoneAtStart(rest, at + 1);
      } else {
        StackStep(fe, rest, at + 1, i);
      }
    case DirNode(inner, rest) =>
      var end := at + 1 + Size(inner);
      NoneAtStart(rest, end);
      if i == at {
        NoneAtStart(inner, at + 1);
        StepIn(fe, inner, rest, at);
      } else if i < end {
        StackStep(fe, inner, at + 1, i);
        NoneAtEnd(inner, at + 1);
        StepInside(fe, inner, rest, at, i);
      } else {
        StackStep(fe, rest, end, i);
      }
  }

  // The stack never gets deeper than the tree.
  lemma {:induction false} StackDepth(fe: seq<FEntry>, f: Forest, at: nat, i: nat)
    requires Encodes(fe, f, at) && at <= i < at + Size(f)
    ensures |Ancestors(f, at, i)| + |PushOf(fe, i)| <= Depth(f)
    decreases f
  {
    match f
    case Nil =>
    case FileNode(rest) =>
      if i != at {
        StackDepth(fe, rest, at + 1, i);
      }
    case DirNode(inner, rest) =>
      var end := at + 1 + Size(inner);
      if at < i < end {
        StackDepth(fe, inner, at + 1, i);
      } else if end <= i {
        StackDepth(fe, rest, end, i);
      }
  }

  lemma StepIn(fe: seq<FEntry>, inner: Forest, rest: Forest, at: nat)
    requires Encodes(fe, DirNode(inner, rest), at)
    requires Ancestors(inner, at + 1, at + 1) == [] && Closing(inner, at + 1, at + 1) == []
    requires Ancestors(rest, at + 1 + Size(inner), at + 1 + Size(inner)) == []
             && Closing(rest, at + 1 + Size(inner), at + 1 + Size(inner)) == []
    ensures var f := DirNode(inner, rest);
            Ancestors(f, at, at + 1) + Closing(f, at, at + 1) == Ancestors(f, at, at) + PushOf(fe, at)
  {
  }

  lemma StepInside(fe: seq<FEntry>, inner: Forest, rest: Forest, at: nat, i: nat)
    requires at < i < at + 1 + Size(inner) && at + 1 + Size(inner) <= |fe|
    requires Ancestors(inner, at + 1, i + 1) + Closing(inner, at + 1, i + 1)
             == Ancestors(inner, at + 1, i) + PushOf(fe, i)
    requires Ancestors(inner, at + 1, at + 1 + Size(inner)) == []
    requires Ancestors(rest, at + 1 + Size(inner), at + 1 + Size(inner)) == []
    ensures var f := DirNode(inner, rest);
            Ancestors(f, at, i + 1) + Closing(f, at, i + 1) == Ancestors(f, at, i) + PushOf(fe, i)
  {
    var push := PushOf(fe, i);
    var a, c, b := Ancestors(inner, at + 1, i + 1), Closing(inner, at + 1, i + 1), Ancestors(inner, at + 1, i);
    assert [at] + a + c == [at] + (a + c);
    assert [at] + b + push == [at] + (b + push);
    if i + 1 == at + 1 + Size(inner) {
      assert [] + ([at] + c) == [at] + (a + c);
    }
  }

  /** The stack seen from the table: it holds exactly the directories whose range of entries has i in it, in order. */
  lemma {:induction false} AncestorsAre(fe: seq<FEntry>, f: Forest, at: nat, i: nat, d: nat)
    requires Encodes(fe, f, at) && at <= i <= at + Size(f)
    ensures d in Ancestors(f, at, i) <==> at <= d < i && fe[d].isDir && i < fe[d].length && d < at + Size(f)
    ensures forall j, k :: 0 <= j < k < |Ancestors(f, at, i)| ==> Ancestors(f, at, i)[j] < Ancestors(f, at, i)[k]
    ensures forall k :: 0 <= k < |Ancestors(f, at, i)| ==> at <= Ancestors(f, at, i)[k]
  {
    WhereDirsEnd(fe, f, at, i);
    match f
    case Nil =>
    case FileNode(rest) =>
      if i != at {
        AncestorsAre(fe, rest, at + 1, i, d);
      }
    case DirNode(inner, rest) =>
      var end := at + 1 + Size(inner);
      if at < i < end {
        AncestorsAre(fe, inner, at + 1, i, d);
        assert Ancestors(f, at, i) == [at] + Ancestors(inner, at + 1, i);
      } else if end <= i {
        EndsInside(fe, inner, at + 1, d);
        AncestorsAre(fe, rest, end, i, d);
      }
  }

  // A directory of a forest ends inside it.
  lemma {:induction false} EndsInside(fe: seq<FEntry>, f: Forest, at: nat, d: nat)
    requires Encodes(fe, f, at)
    ensures at <= d < at + Size(f) && fe[d].isDir ==> fe[d].length <= at + Size(f)
  {
    match f
    case Nil =>
    case FileNode(rest) => EndsInside(fe, rest, at + 1, d);
    case DirNode(inner, rest) =>
      EndsInside(fe, inner, at + 1, d);
      EndsInside(fe, rest, at + 1 + Size(inner), d);
  }
}
