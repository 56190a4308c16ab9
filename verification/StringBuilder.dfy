/** The growing buffer in which a deserializer collects one string. */
module StringBuilders {
  import opened Bytes
  import opened Options

  const INITIAL_CAPACITY := 31

  /** The buffer lengths a doubling run passes through end exactly at max. */
  ghost predicate Doubles(len: nat, max: nat)
    decreases max - len
  {
    len == max || (len < max && Doubles(2 * len + 1, max))
  }

  /** Content after more bytes: lost for good once it exceeds the limit. */
  function Extended(content: Option<bytes>, more: bytes, max: nat): Option<bytes> {
    if content.None? || |content.value| + |more| > max then None else Some(content.value + more)
  }

  lemma ExtendedTwice(content: Option<bytes>, a: bytes, b: bytes, max: nat)
    ensures Extended(Extended(content, a, max), b, max) == Extended(content, a + b, max)
  {
    if content.Some? { Associates(content.value, a, b); }
  }

  class StringBuilder {
    const maxString: nat
    // node_->length, or None for a null node_
    var node: Option<nat>
    var text: bytes

    ghost predicate Valid()
      reads this
    {
      && Doubles(INITIAL_CAPACITY, maxString)
      && (node.Some? ==> |text| <= node.value <= maxString && Doubles(node.value, maxString))
    }

    /** The text so far, or None once the string has outgrown its length type. */
    ghost function Content(): Option<bytes>
      reads this
    {
      if node.None? then None else Some(text)
    }

    lemma NotExtended()
      requires Valid()
      ensures Content() == Extended(Content(), [], maxString)
    {
      if node.Some? { assert text + [] == text; }
    }

    constructor (maxString: nat)
      requires Doubles(INITIAL_CAPACITY, maxString)
      ensures Valid() && this.maxString == maxString
    {
      this.maxString := maxString;
      node := None;
      text := [];
    }

    method StartString()
      requires Valid()
      modifies this
      ensures Valid() && Content() == Some([])
    {
      text := [];
      if node.None? {
        node := Some(INITIAL_CAPACITY);
      }
    }

    /** The buffer is lost exactly when a byte follows the longest string. */
    method Append(c: byte)
      requires Valid()
      modifies this
      ensures Valid()
      ensures Content() == Extended(old(Content()), [c], maxString)
    {
      if node.Some? && |text| == node.value {
        var length := |text| * 2 + 1;
        assert node.value < maxString ==> Doubles(length, maxString);
        node := if length <= maxString then Some(length) else None;
      }
      if node.Some? {
        text := text + [c];
      }
    }

    /** Hands the text over; a text that is new to the pool takes the buffer. */
    method Save(isNew: bool) returns (s: bytes)
      requires Valid() && node.Some?
      modifies this
      ensures Valid() && Some(s) == old(Content())
    {
      s := text;
      if isNew {
        node := None;
      }
    }
  }
}
