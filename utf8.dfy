/**
 * The bytes of a Rust `String` and the rule Rust applies when such a string is
 * sliced by byte index: the index must fall on a character boundary, or the
 * slice panics.
 */
module Utf8 {

  newtype byte = b: int | 0 <= b < 0x100

  /** A byte of the form 10xxxxxx, which can only continue a character. */
  predicate IsContinuation(b: byte) {
    0x80 <= b < 0xC0
  }

  /** `str::is_char_boundary`: the start, the end, or any byte that starts a character. */
  predicate IsCharBoundary(s: seq<byte>, i: nat) {
    i == 0 || i == |s| || (i < |s| && !IsContinuation(s[i]))
  }

  /** How many bytes the character introduced by `lead` occupies; 0 for a byte that cannot lead. */
  function CharWidth(lead: byte): (w: nat)
    ensures w <= 4
    ensures w == 0 <==> IsContinuation(lead) || lead in {0xC0, 0xC1} || lead >= 0xF5
  {
    if lead < 0x80 then 1
    else if 0xC2 <= lead < 0xE0 then 2
    else if 0xE0 <= lead < 0xF0 then 3
    else if 0xF0 <= lead < 0xF5 then 4
    else 0
  }

  /**
   * The byte shape of UTF-8 (RFC 3629, section 3): a sequence of characters,
   * each a lead byte followed by as many continuation bytes as the lead calls for.
   */
  predicate WellFormed(s: seq<byte>)
    decreases |s|
  {
    s == [] ||
    (var w := CharWidth(s[0]);
     0 < w <= |s| && (forall k | 1 <= k < w :: IsContinuation(s[k])) && WellFormed(s[w..]))
  }

  predicate IsAscii(s: seq<byte>) {
    forall k | 0 <= k < |s| :: s[k] < 0x80
  }

  /** Cutting well-formed text at a character boundary leaves well-formed text. */
  lemma {:induction false} PrefixAtBoundary(s: seq<byte>, i: nat)
    requires WellFormed(s) && i <= |s| && IsCharBoundary(s, i)
    ensures WellFormed(s[..i])
    decreases |s|
  {
    if i > 0 {
      var w := CharWidth(s[0]);
      assert i >= w;
      var rest := s[w..];
      assert IsCharBoundary(rest, i - w) by {
        if i < |s| { assert rest[i - w] == s[i]; }
      }
      PrefixAtBoundary(rest, i - w);
      assert s[..i][w..] == rest[..i - w];
    }
  }

  /** Plain ASCII is well-formed UTF-8, one byte per character. */
  lemma {:induction false} AsciiIsWellFormed(s: seq<byte>)
    requires IsAscii(s)
    ensures WellFormed(s)
    decreases |s|
  {
    if s != [] {
      AsciiIsWellFormed(s[1..]);
    }
  }

  /** Well-formed text followed by well-formed text is well-formed. */
  lemma {:induction false} ConcatWellFormed(a: seq<byte>, b: seq<byte>)
    requires WellFormed(a) && WellFormed(b)
    ensures WellFormed(a + b)
    decreases |a|
  {
    if a == [] {
      assert a + b == b;
    } else {
      var w := CharWidth(a[0]);
      assert 0 < w <= |a| && WellFormed(a[w..]);
      ConcatWellFormed(a[w..], b);
      assert (a + b)[w..] == a[w..] + b;
      forall k | 1 <= k < w
        ensures IsContinuation((a + b)[k])
      {
        assert (a + b)[k] == a[k];
      }
      assert CharWidth((a + b)[0]) == w;
    }
  }
}
