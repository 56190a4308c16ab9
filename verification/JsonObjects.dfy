/** An object in which a key is repeated. */
module JsonObjects {
  import opened Bytes
  import opened Document
  import opened Filters

  lemma {:induction false} PutOver(ms: seq<Member>, m: Member, i: nat)
    requires i < |ms| && ms[i].key == m.key && forall j | 0 <= j < i :: ms[j].key != m.key
    ensures PutMember(ms, m) == ms[i := m]
  {
    if i == 0 {
      assert [m] + ms[1..] == ms[0 := m];
    } else {
      var more := ms[1..];
      PutOver(more, m, i - 1);
      assert [ms[0]] + more[i - 1 := m] == ms[i := m];
    }
  }

  lemma {:induction false} PutNew(ms: seq<Member>, m: Member)
    requires !HasKey(ms, m.key)
    ensures PutMember(ms, m) == ms + [m]
  {
    if ms != [] {
      var more := ms[1..];
      forall i | 0 <= i < |more| ensures more[i].key != m.key { assert more[i] == ms[i + 1]; }
      PutNew(more, m);
      assert ms[0].key != m.key;
    }
  }

  lemma {:induction false} PutLast(ms: seq<Member>, added: seq<Member>, m: Member)
    ensures PutAll(ms, added + [m]) == PutMember(PutAll(ms, added), m)
    decreases added
  {
    if added == [] {
      assert [m][1..] == [] && added + [m] == [m];
    } else {
      assert (added + [m])[1..] == added[1..] + [m];
      PutLast(PutMember(ms, added[0]), added[1..], m);
    }
  }

  /** The places of the first and of the last member with this key. */
  predicate IsFirst(ms: seq<Member>, key: bytes, p: int) {
    0 <= p < |ms| && ms[p].key == key && forall j | 0 <= j < p :: ms[j].key != key
  }

  predicate IsLast(ms: seq<Member>, key: bytes, p: int) {
    0 <= p < |ms| && ms[p].key == key && forall j | p < j < |ms| :: ms[j].key != key
  }

  /** An object has each key once, in the place where the key first stands and
      with the value that it has where it stands last. */
  ghost predicate KeepsLast(r: seq<Member>, ms: seq<Member>) {
    && (forall key :: HasKey(r, key) <==> HasKey(ms, key))
    && (forall i | 0 <= i < |r| :: exists p :: IsLast(ms, r[i].key, p) && ms[p].value == r[i].value)
    && (forall i, j, p, q | 0 <= i < j < |r| && IsFirst(ms, r[i].key, p) && IsFirst(ms, r[j].key, q) :: p < q)
    && (forall i, j | 0 <= i < j < |r| :: r[i].key != r[j].key)
  }

  lemma {:induction false} LastWins(ms: seq<Member>)
    ensures KeepsLast(PutAll([], ms), ms)
  {
    if ms != [] {
      var before, m := ms[..|ms| - 1], ms[|ms| - 1];
      assert before + [m] == ms;
      LastWins(before);
      PutLast([], before, m);
      PutKeeps(PutAll([], before), before, m);
    }
  }

  lemma PutKeeps(r: seq<Member>, ms: seq<Member>, m: Member)
    requires KeepsLast(r, ms)
    ensures KeepsLast(PutMember(r, m), ms + [m])
  {
    if HasKey(r, m.key) {
      var k :| 0 <= k < |r| && r[k].key == m.key;
      assert forall j | 0 <= j < k :: r[j].key != m.key;
      PutOver(r, m, k);
      ReplacedKeeps(r, ms, m, k);
    } else {
      PutNew(r, m);
      AddedKeeps(r, ms, m);
    }
  }

  lemma FirstStays(ms: seq<Member>, m: Member, key: bytes, p: int)
    requires IsFirst(ms + [m], key, p) && HasKey(ms, key)
    ensures IsFirst(ms, key, p)
  {
    var i :| 0 <= i < |ms| && ms[i].key == key;
    assert (ms + [m])[i] == ms[i];
    forall j | 0 <= j < p ensures ms[j].key != key { assert (ms + [m])[j] == ms[j]; }
  }

  lemma LastStays(ms: seq<Member>, m: Member, key: bytes)
    requires key != m.key
    ensures forall p | IsLast(ms, key, p) :: IsLast(ms + [m], key, p) && (ms + [m])[p] == ms[p]
  {
  }

  lemma KeysStay(r: seq<Member>, ms: seq<Member>, m: Member, s: seq<Member>)
    requires forall key :: HasKey(r, key) <==> HasKey(ms, key)
    requires |r| <= |s| && forall i | 0 <= i < |r| :: s[i].key == r[i].key
    requires exists i :: 0 <= i < |s| && s[i].key == m.key
    requires forall i | |r| <= i < |s| :: s[i].key == m.key
    ensures forall key :: HasKey(s, key) <==> HasKey(ms + [m], key)
  {
    var t := ms + [m];
    forall key ensures HasKey(s, key) <==> HasKey(t, key) {
      if HasKey(s, key) && key != m.key {
        var i :| 0 <= i < |s| && s[i].key == key;
        assert r[i].key == key && HasKey(r, key);
        var p :| 0 <= p < |ms| && ms[p].key == key;
        assert t[p].key == key;
      }
      if HasKey(t, key) && key != m.key {
        var p :| 0 <= p < |t| && t[p].key == key;
        assert ms[p].key == key && HasKey(ms, key);
        var i :| 0 <= i < |r| && r[i].key == key;
        assert s[i].key == key;
      }
      assert t[|ms|] == m;
    }
  }

  lemma ReplacedKeeps(r: seq<Member>, ms: seq<Member>, m: Member, k: nat)
    requires KeepsLast(r, ms) && k < |r| && r[k].key == m.key
    ensures KeepsLast(r[k := m], ms + [m])
  {
    var s, t := r[k := m], ms + [m];
    assert s[k].key == m.key;
    KeysStay(r, ms, m, s);
    forall i | 0 <= i < |s| ensures exists p :: IsLast(t, s[i].key, p) && t[p].value == s[i].value {
      if i == k {
        assert IsLast(t, m.key, |ms|) && t[|ms|] == m;
      } else {
        assert r[i].key != r[k].key;
        LastStays(ms, m, r[i].key);
        var p :| IsLast(ms, r[i].key, p) && ms[p].value == r[i].value;
        assert IsLast(t, s[i].key, p);
      }
    }
    forall i, j, p, q | 0 <= i < j < |s| && IsFirst(t, s[i].key, p) && IsFirst(t, s[j].key, q) ensures p < q {
      assert HasKey(r, r[i].key) && HasKey(r, r[j].key);
      FirstStays(ms, m, r[i].key, p);
      FirstStays(ms, m, r[j].key, q);
    }
  }

  lemma AddedKeeps(r: seq<Member>, ms: seq<Member>, m: Member)
    requires KeepsLast(r, ms) && !HasKey(r, m.key)
    ensures KeepsLast(r + [m], ms + [m])
  {
    var s, t := r + [m], ms + [m];
    assert s[|r|].key == m.key;
    KeysStay(r, ms, m, s);
    forall i | 0 <= i < |s| ensures exists p :: IsLast(t, s[i].key, p) && t[p].value == s[i].value {
      if i == |r| {
        assert IsLast(t, m.key, |ms|) && t[|ms|] == m;
      } else {
        LastStays(ms, m, r[i].key);
        var p :| IsLast(ms, r[i].key, p) && ms[p].value == r[i].value;
        assert IsLast(t, s[i].key, p);
      }
    }
    forall i, j, p, q | 0 <= i < j < |s| && IsFirst(t, s[i].key, p) && IsFirst(t, s[j].key, q) ensures p < q {
      assert HasKey(r, r[i].key);
      FirstStays(ms, m, r[i].key, p);
      if j < |r| {
        assert HasKey(r, r[j].key);
        FirstStays(ms, m, r[j].key, q);
      } else {
        assert t[q].key == m.key;
        assert !HasKey(ms, m.key);
        assert q == |ms|;
      }
    }
  }
}
