/** What the operations do to a document, as a reader of it sees: what is there
    afterwards, and that nothing else has changed. */
module DocumentLaws {
  import opened Bytes
  import opened Options
  import opened Document
  import opened JsonDocuments
  import opened DocumentViews
  import opened DocumentPaths
  import opened DocumentHistories

  lemma {:induction false} GetBelow(v: Value, a: Path, b: Path)
    ensures Get(v, a + b) == match Get(v, a) case None => None case Some(u) => Get(u, b)
    decreases |b|
  {
    if b == [] {
      assert a + b == a;
    } else {
      var c, k := b[..|b| - 1], b[|b| - 1];
      assert (a + b)[..|a + b| - 1] == a + c;
      GetBelow(v, a, c);
    }
  }

  lemma OneDown(v: Value, k: nat)
    ensures Get(v, [k]) == if k < ChildCount(v) then Some(Child(v, k)) else None
  {
    assert [k][..0] == [];
  }

  /** A value put at a path changes nothing that does not lie above or below it. */
  lemma {:induction false} OthersStay(v: Value, path: Path, w: Value, other: Path)
    requires !(path <= other) && !(other <= path)
    ensures Get(Put(v, path, w), other) == Get(v, other)
    decreases |path|
  {
    var k, above := path[|path| - 1], path[..|path| - 1];
    if Get(v, above).Some? && k < ChildCount(Get(v, above).value) {
      var u := Get(v, above).value;
      if above <= other {
        SiblingStays(v, above, u, k, w, other);
      } else {
        OthersStay(v, above, PutChild(u, k, w), other);
      }
    }
  }

  lemma SiblingStays(v: Value, above: Path, u: Value, k: nat, w: Value, other: Path)
    requires Get(v, above) == Some(u) && k < ChildCount(u)
    requires above <= other && !(above + [k] <= other) && !(other <= above + [k])
    ensures Get(Put(v, above, PutChild(u, k, w)), other) == Get(v, other)
  {
    PutAndGet(v, above, PutChild(u, k, w));
    var j, rest := other[|above|], other[|above| + 1..];
    assert other == above + ([j] + rest);
    GetBelow(v, above, [j] + rest);
    GetBelow(Put(v, above, PutChild(u, k, w)), above, [j] + rest);
    GetBelow(u, [j], rest);
    GetBelow(PutChild(u, k, w), [j], rest);
    OneDown(u, j);
    OneDown(PutChild(u, k, w), j);
  }

  /** What is found where the operation was, if it got all it needed. */
  lemma Observed(v: Value, op: Op, u: Value)
    requires Get(v, op.path) == Some(u)
    ensures var got := NeedsIn(v, op);
            Get(Apply(v, op, got), op.path).Some?
            && var w := Get(Apply(v, op, got), op.path).value;
               match op
               case AddElement(_) => if u.Arr? then got == 1 && w == Arr(u.elems + [Null]) else got == 0 && w == u
               case GetOrAddElement(_, index) =>
                 if u.Arr? then
                   w.Arr? && |w.elems| == Max(|u.elems|, index + 1) && |w.elems| == |u.elems| + got
                   && forall i | 0 <= i < |w.elems| :: w.elems[i] == if i < |u.elems| then u.elems[i] else Null
                 else got == 0 && w == u
               case RemoveElement(_, index) =>
                 got == 0
                 && (u.Arr? ==>
                       w == Arr(if index < |u.elems| then u.elems[..index] + u.elems[index + 1..] else u.elems))
                 && (u.Obj? ==>
                       w == Obj(if index < |u.members| then u.members[..index] + u.members[index + 1..]
                                else u.members))
                 && (!u.Arr? && !u.Obj? ==> w == u)
               case AddMember(_, key) =>
                 if u.Obj? then got == 1 && w == Obj(u.members + [Member(key, Null)]) else got == 0 && w == u
               case Clear(_) => got == 0 && w == if u.Arr? then Arr([]) else if u.Obj? then Obj([]) else u
               case SetString(_, text) => got == 1 && w == Str(text)
               case MakeCollection(_, isArray) => got == 0 && w == if isArray then Arr([]) else Obj([])
               case SetNull(_) => got == 0 && w == Null
  {
    PutAndGet(v, op.path, Changed(u, op, NeedsIn(v, op)));
  }

  /** With less, it has done as much of it as it got. */
  lemma Short(v: Value, op: Op, u: Value, got: nat)
    requires Get(v, op.path) == Some(u) && got < NeedsIn(v, op)
    ensures Get(Apply(v, op, got), op.path).Some?
            && var w := Get(Apply(v, op, got), op.path).value;
               match op
               case GetOrAddElement(_, _) => u.Arr? && w == Arr(u.elems + seq(got, _ => Null))
               case SetString(_, _) => w == Null
               case _ => w == u
  {
    PutAndGet(v, op.path, Changed(u, op, got));
    if u.Arr? { assert u.elems + seq(0, _ => Null) == u.elems; }
  }

  /** Whatever lies neither above nor below is as it was; where there is nothing,
      nothing happens. */
  lemma NothingElse(v: Value, op: Op, got: nat, other: Path)
    requires !(op.path <= other) && !(other <= op.path)
    ensures Get(Apply(v, op, got), other) == Get(v, other)
    ensures Get(v, op.path).None? ==> Apply(v, op, got) == v
  {
    if Get(v, op.path).Some? {
      OthersStay(v, op.path, Changed(Get(v, op.path).value, op, got), other);
    }
  }
}
