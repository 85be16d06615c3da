/** The title shown by the window component (src/components/window.rs): a
    title longer than the limit keeps the characters whose UTF-8 byte offset
    (as `char_indices` reports it) is at most the limit, then gets "…". */
module WindowTitle {
  import opened Wrappers
  import opened Utf8

  /** The limit used when the component's config has no `truncate` key. */
  const DefaultTruncate: nat := 100

  const Ellipsis: char := '…'

  /** `get_int_or("truncate", 100) as usize`: the configured 64-bit integer,
      where the cast to `usize` wraps a negative value around 2^64. */
  function TruncLimit(configured: Option<int>): (trunc: nat)
    requires configured.Some? ==> -0x8000_0000_0000_0000 <= configured.value < 0x8000_0000_0000_0000
    ensures configured.None? ==> trunc == DefaultTruncate
    ensures configured.Some? && configured.value >= 0 ==> trunc == configured.value
    ensures configured.Some? && configured.value < 0 ==> trunc >= 0x8000_0000_0000_0000
    ensures trunc < 0x1_0000_0000_0000_0000
  {
    var v := configured.GetOr(DefaultTruncate);
    if v >= 0 then v else v + 0x1_0000_0000_0000_0000
  }

  /** The byte offset of character `i` of `s`, as `char_indices` yields it. */
  function ByteOffset(s: string, i: nat): (r: nat)
    requires i <= |s|
    ensures r >= i
  {
    |Encode(s[..i])|
  }

  /** `char_indices().filter(|x| x.0 <= trunc)` folded back into a string,
      for the characters of `s` starting at byte offset `offset`. */
  function Kept(s: string, offset: nat, trunc: nat): string
    decreases |s|
  {
    if s == [] then []
    else (if offset <= trunc then [s[0]] else []) + Kept(s[1..], offset + Width(s[0]), trunc)
  }

  /** The text the label is set to for window title `name`. */
  function Truncate(name: string, trunc: nat): string {
    if |name| > trunc then Kept(name, 0, trunc) + [Ellipsis] else name
  }

  // ---------------------------------------------------------------------
  // Lemmas

  lemma ByteOffsetCons(s: string, i: nat)
    requires s != [] && i < |s|
    ensures ByteOffset(s, i + 1) == Width(s[0]) + ByteOffset(s[1..], i)
  {
    assert s[..i + 1] == [s[0]] + s[1..][..i];
    assert Encode(s[..i + 1]) == EncodeChar(s[0]) + Encode(s[1..][..i]);
  }

  /** Once past the limit, no later character is kept. */
  lemma {:induction false} KeptNone(s: string, offset: nat, trunc: nat)
    requires offset > trunc
    ensures Kept(s, offset, trunc) == []
    decreases |s|
  {
    if s != [] {
      KeptNone(s[1..], offset + Width(s[0]), trunc);
    }
  }

  /** The kept characters are a prefix of `s`: exactly those whose byte
      offset (counted from `offset`) is within the limit. */
  lemma {:induction false} KeptPrefix(s: string, offset: nat, trunc: nat)
    ensures var k := Kept(s, offset, trunc);
            |k| <= |s| && k == s[..|k|]
            && (forall i :: 0 <= i < |k| ==> offset + ByteOffset(s, i) <= trunc)
            && (|k| < |s| ==> offset + ByteOffset(s, |k|) > trunc)
    decreases |s|
  {
    var k := Kept(s, offset, trunc);
    if s == [] {
    } else if offset > trunc {
      KeptNone(s, offset, trunc);
      assert ByteOffset(s, 0) == 0;
    } else {
      var k' := Kept(s[1..], offset + Width(s[0]), trunc);
      KeptPrefix(s[1..], offset + Width(s[0]), trunc);
      assert k == [s[0]] + k';
      assert k == s[..|k|];
      forall i | 0 <= i < |k| ensures offset + ByteOffset(s, i) <= trunc {
        if i == 0 {
          assert ByteOffset(s, 0) == 0;
        } else {
          ByteOffsetCons(s, i - 1);
        }
      }
      if |k| < |s| {
        ByteOffsetCons(s, |k'|);
      }
    }
  }

  /** A title of at most `trunc` characters is shown unchanged; a longer one
      is shown as the characters at byte offsets `0..=trunc` (at least one,
      at most `trunc + 1`) followed by "…". */
  lemma TruncateSpec(name: string, trunc: nat)
    ensures |name| <= trunc ==> Truncate(name, trunc) == name
    ensures |name| > trunc ==>
              var r := Truncate(name, trunc);
              var n := |r| - 1;
              1 <= n <= trunc + 1 && n <= |name|
              && r == name[..n] + [Ellipsis]
              && (forall i :: 0 <= i < n ==> ByteOffset(name, i) <= trunc)
              && (n < |name| ==> ByteOffset(name, n) > trunc)
  {
    if |name| > trunc {
      KeptPrefix(name, 0, trunc);
      var k := Kept(name, 0, trunc);
      assert name[..0] == [];
      assert |k| >= 1;
      assert ByteOffset(name, |k| - 1) <= trunc;
    }
  }

  predicate Ascii(s: string) {
    forall i :: 0 <= i < |s| ==> s[i] as int < 0x80
  }

  lemma {:induction false} AsciiEncodeLength(s: string)
    requires Ascii(s)
    ensures |Encode(s)| == |s|
    decreases |s|
  {
    if s != [] {
      AsciiEncodeLength(s[1..]);
    }
  }

  /** An ASCII title longer than `trunc` keeps its first `trunc + 1`
      characters: one more than the limit. */
  lemma TruncateAscii(name: string, trunc: nat)
    requires Ascii(name) && |name| > trunc
    ensures Truncate(name, trunc) == name[..trunc + 1] + [Ellipsis]
  {
    TruncateSpec(name, trunc);
    var n := |Truncate(name, trunc)| - 1;
    if n < |name| {
      AsciiEncodeLength(name[..n]);
    }
  }

  /** A non-ASCII title can keep fewer characters than an ASCII one: a title
      of three two-byte characters truncated at 2 keeps two of them. */
  lemma TruncateMultiByte()
    ensures Truncate("ééé", 2) == "éé…"
  {
    var s := "ééé";
    assert s[1..] == "éé" && s[1..][1..] == "é";
    assert Kept(s, 0, 2) == "éé";
  }
}
