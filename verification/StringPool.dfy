/** Strings kept once each, with a count of their owners. */
module StringPools {
  import opened Bytes
  import opened Options
  import opened Slots

  datatype StringNode = StringNode(data: Address, text: bytes, references: nat)

  /** How many references the pool counts for a string: none for one it has not. */
  function Refs(strings: seq<StringNode>, a: Address): nat {
    if strings == [] then 0
    else if strings[0].data == a then strings[0].references
    else Refs(strings[1..], a)
  }

  function TextOf(strings: seq<StringNode>, a: Address): Option<bytes> {
    if strings == [] then None
    else if strings[0].data == a then Some(strings[0].text)
    else TextOf(strings[1..], a)
  }

  /** Where a text is, if it is in the pool. */
  function Find(strings: seq<StringNode>, text: bytes): Option<Address> {
    if strings == [] then None
    else if strings[0].text == text then Some(strings[0].data)
    else Find(strings[1..], text)
  }

  ghost predicate Distinct(strings: seq<StringNode>) {
    && (forall i, j | 0 <= i < j < |strings| :: strings[i].text != strings[j].text
                                                && strings[i].data != strings[j].data)
    && (forall i | 0 <= i < |strings| :: strings[i].references > 0)
  }

  /** Nothing new, and what is still there reads as before. */
  ghost predicate Reduced(before: seq<StringNode>, after: seq<StringNode>) {
    forall a: Address ::
      Refs(after, a) <= Refs(before, a) && (Refs(after, a) > 0 ==> TextOf(after, a) == TextOf(before, a))
  }

  lemma ReducedTwice(before: seq<StringNode>, between: seq<StringNode>, after: seq<StringNode>)
    requires Reduced(before, between) && Reduced(between, after)
    ensures Reduced(before, after)
  {
  }

  lemma NothingReduced(strings: seq<StringNode>)
    ensures Reduced(strings, strings)
  {
  }

  lemma {:induction false} RefsAt(strings: seq<StringNode>, i: nat)
    requires Distinct(strings) && i < |strings|
    ensures Refs(strings, strings[i].data) == strings[i].references
    ensures TextOf(strings, strings[i].data) == Some(strings[i].text)
    ensures Find(strings, strings[i].text) == Some(strings[i].data)
  {
    if i > 0 { RefsAt(strings[1..], i - 1); }
  }

  /** The pool has a text exactly when some string in it has the text, and it has
      a string exactly when it counts references to it. */
  lemma {:induction false} FoundIsThere(strings: seq<StringNode>, text: bytes, a: Address)
    requires Distinct(strings)
    ensures Find(strings, text) == Some(a) <==> TextOf(strings, a) == Some(text)
    ensures TextOf(strings, a).Some? <==> Refs(strings, a) > 0
  {
    if strings != [] {
      FoundIsThere(strings[1..], text, a);
      if strings[0].text == text && TextOf(strings[1..], a) == Some(text) {
        TextIsThere(strings[1..], a);
      }
      if strings[0].data == a && Find(strings[1..], text) == Some(a) {
        FoundHere(strings[1..], text);
      }
    }
  }

  lemma {:induction false} TextIsThere(strings: seq<StringNode>, a: Address)
    requires TextOf(strings, a).Some?
    ensures exists i | 0 <= i < |strings| :: strings[i].data == a && strings[i].text == TextOf(strings, a).value
  {
    if strings[0].data != a {
      TextIsThere(strings[1..], a);
      var i :| 0 <= i < |strings[1..]| && strings[1..][i].data == a && strings[1..][i].text == TextOf(strings, a).value;
      assert strings[i + 1].data == a;
    }
  }

  lemma {:induction false} FoundHere(strings: seq<StringNode>, text: bytes)
    requires Find(strings, text).Some?
    ensures exists i | 0 <= i < |strings| :: strings[i].text == text && strings[i].data == Find(strings, text).value
  {
    if strings[0].text != text {
      FoundHere(strings[1..], text);
      var i :| 0 <= i < |strings[1..]| && strings[1..][i].text == text
          && strings[1..][i].data == Find(strings, text).value;
      assert strings[i + 1].text == text;
    }
  }

  /** One string's count changed. */
  function Counted(strings: seq<StringNode>, i: nat, n: nat): seq<StringNode>
    requires i < |strings|
  {
    strings[i := strings[i].(references := n)]
  }

  lemma {:induction false} CountedRefs(strings: seq<StringNode>, i: nat, n: nat, a: Address)
    requires Distinct(strings) && i < |strings| && n > 0
    ensures Distinct(Counted(strings, i, n))
    ensures Refs(Counted(strings, i, n), a) == if a == strings[i].data then n else Refs(strings, a)
    ensures TextOf(Counted(strings, i, n), a) == TextOf(strings, a)
  {
    if i > 0 {
      CountedRefs(strings[1..], i - 1, n, a);
      assert Counted(strings, i, n)[1..] == Counted(strings[1..], i - 1, n);
    } else {
      assert Counted(strings, i, n)[1..] == strings[1..];
    }
  }

  function Removed(strings: seq<StringNode>, i: nat): seq<StringNode>
    requires i < |strings|
  {
    strings[..i] + strings[i + 1..]
  }

  lemma RemovedIsDistinct(strings: seq<StringNode>, i: nat)
    requires Distinct(strings) && i < |strings|
    ensures Distinct(Removed(strings, i))
  {
    var after := Removed(strings, i);
    forall k | 0 <= k < |after| ensures after[k] == strings[if k < i then k else k + 1] {
    }
  }

  lemma {:induction false} RemovedRefs(strings: seq<StringNode>, i: nat, a: Address)
    requires Distinct(strings) && i < |strings|
    ensures Refs(Removed(strings, i), a) == if a == strings[i].data then 0 else Refs(strings, a)
    ensures TextOf(Removed(strings, i), a) == if a == strings[i].data then None else TextOf(strings, a)
  {
    var after := Removed(strings, i);
    if i > 0 {
      RemovedRefs(strings[1..], i - 1, a);
      assert after[1..] == Removed(strings[1..], i - 1);
      assert after[0] == strings[0];
    } else {
      assert after == strings[1..];
      if a == strings[0].data { Absent(strings[1..], a); }
    }
  }

  lemma {:induction false} Absent(strings: seq<StringNode>, a: Address)
    requires forall i | 0 <= i < |strings| :: strings[i].data != a
    ensures Refs(strings, a) == 0 && TextOf(strings, a) == None
  {
    if strings != [] { Absent(strings[1..], a); }
  }

  class StringPool {
    // the linked list from its head on, and where the next string will lie
    var strings: seq<StringNode>
    var nextAddress: Address

    ghost predicate Valid()
      reads this
    {
      Distinct(strings) && forall i | 0 <= i < |strings| :: strings[i].data < nextAddress
    }

    constructor ()
      ensures Valid() && strings == []
    {
      strings := [];
      nextAddress := 0;
    }

    method Get(text: bytes) returns (node: Option<Address>, i: nat)
      requires Valid()
      ensures node == Find(strings, text)
      ensures node.Some? ==> i < |strings| && strings[i].data == node.value && strings[i].text == text
    {
      i := 0;
      assert strings[0..] == strings;
      while i < |strings|
        invariant i <= |strings| && Find(strings[i..], text) == Find(strings, text)
      {
        if strings[i].text == text {
          return Some(strings[i].data), i;
        }
        assert strings[i..][1..] == strings[i + 1..];
        i := i + 1;
      }
      node := None;
    }

    /** A text there already gets one more reference, a new one its first. */
    method Add(text: bytes, ok: bool) returns (node: Option<Address>)
      requires Valid()
      modifies this
      ensures Valid()
      ensures Find(old(strings), text).Some? ==> node == Find(old(strings), text)
      ensures Find(old(strings), text).None? ==> node.Some? == ok && (ok ==> TextOf(old(strings), node.value) == None)
      ensures node.Some? ==> TextOf(strings, node.value) == Some(text)
      ensures node.None? ==> strings == old(strings)
      ensures forall a: Address :: Refs(strings, a) == Refs(old(strings), a) + if node == Some(a) then 1 else 0
      ensures forall a: Address :: node != Some(a) ==> TextOf(strings, a) == TextOf(old(strings), a)
    {
      var i;
      node, i := Get(text);
      if node.Some? {
        ghost var before := strings;
        RefsAt(strings, i);
        strings := strings[i := strings[i].(references := strings[i].references + 1)];
        forall a: Address
          ensures Refs(strings, a) == Refs(before, a) + if node == Some(a) then 1 else 0
          ensures TextOf(strings, a) == TextOf(before, a)
        {
          CountedRefs(before, i, before[i].references + 1, a);
        }
        CountedRefs(before, i, before[i].references + 1, 0);
        return;
      }
      if ok {
        var a := AddNode(text);
        node := Some(a);
      }
    }

    /** A string with its first reference, as the parsers build it. */
    method AddNode(text: bytes) returns (node: Address)
      requires Valid() && Find(strings, text) == None
      modifies this
      ensures Valid() && TextOf(old(strings), node) == None && strings == [StringNode(node, text, 1)] + old(strings)
      ensures TextOf(strings, node) == Some(text)
      ensures forall a: Address :: Refs(strings, a) == Refs(old(strings), a) + if node == a then 1 else 0
      ensures forall a: Address :: node != a ==> TextOf(strings, a) == TextOf(old(strings), a)
    {
      ghost var before := strings;
      node := nextAddress;
      nextAddress := nextAddress + 1;
      Absent(strings, node);
      NewIsDistinct(strings, node, text);
      strings := [StringNode(node, text, 1)] + strings;
      assert strings[1..] == before;
    }

    /** One reference less; with the last one the string goes. */
    method Dereference(s: Address)
      requires Valid()
      modifies this
      ensures Valid()
      ensures forall a: Address :: Refs(strings, a) == Refs(old(strings), a) - if s == a
                                   && Refs(old(strings), a) > 0 then 1 else 0
      ensures Reduced(old(strings), strings)
    {
      ghost var before := strings;
      var i := 0;
      while i < |strings|
        invariant i <= |strings| && strings == before
        invariant forall j | 0 <= j < i :: strings[j].data != s
      {
        if strings[i].data == s {
          RefsAt(before, i);
          var n := strings[i].references - 1;
          if n == 0 {
            strings := Removed(strings, i);
          } else {
            strings := strings[i := strings[i].(references := n)];
          }
          forall a: Address
            ensures Refs(strings, a) == Refs(before, a) - if s == a && Refs(before, a) > 0 then 1 else 0
            ensures Refs(strings, a) > 0 ==> TextOf(strings, a) == TextOf(before, a)
          {
            Uncounted(before, i, n, a);
          }
          Uncounted(before, i, n, 0);
          return;
        }
        i := i + 1;
      }
      Absent(before, s);
    }
  }

  lemma Uncounted(strings: seq<StringNode>, i: nat, n: nat, a: Address)
    requires Distinct(strings) && i < |strings| && n + 1 == strings[i].references
    ensures var after := if n == 0 then Removed(strings, i) else Counted(strings, i, n);
            Distinct(after)
            && Refs(after, a) == (if a == strings[i].data then n else Refs(strings, a))
            && (Refs(after, a) > 0 ==> TextOf(after, a) == TextOf(strings, a))
            && Refs(strings, strings[i].data) == n + 1
  {
    RefsAt(strings, i);
    RemovedIsDistinct(strings, i);
    RemovedRefs(strings, i, a);
    if n > 0 { CountedRefs(strings, i, n, a); }
  }

  lemma NewIsDistinct(strings: seq<StringNode>, node: Address, text: bytes)
    requires Distinct(strings) && TextOf(strings, node) == None && Find(strings, text) == None
    ensures Distinct([StringNode(node, text, 1)] + strings)
  {
    forall i | 0 <= i < |strings| ensures strings[i].data != node && strings[i].text != text {
      RefsAt(strings, i);
    }
  }
}
