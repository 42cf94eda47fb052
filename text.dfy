/** The two text helpers the Info decoder applies to every string field: PHP's `trim`
    with its default character set, and `mb_convert_encoding(…, 'UTF-8', 'ISO-8859-1')`. */
module Text {
  import opened Wire

  /** The characters `trim` strips by default: space, tab, line feed, carriage return,
      NUL and vertical tab. */
  predicate IsTrimmable(b: byte)
  {
    b == 32 || b == 9 || b == 10 || b == 13 || b == 0 || b == 11
  }

  /** Nothing trimmable at either end. */
  predicate IsTrimmed(s: seq<byte>)
  {
    s == [] || (!IsTrimmable(s[0]) && !IsTrimmable(s[|s| - 1]))
  }

  /** `ltrim`: the longest suffix that does not start with a trimmable byte. */
  function TrimStart(s: seq<byte>): (r: seq<byte>)
    ensures |r| <= |s| && r == s[|s| - |r|..]
    ensures forall k :: 0 <= k < |s| - |r| ==> IsTrimmable(s[k])
    ensures r == [] || !IsTrimmable(r[0])
  {
    if s == [] || !IsTrimmable(s[0]) then s else TrimStart(s[1..])
  }

  /** `rtrim`: the longest prefix that does not end with a trimmable byte. */
  function TrimEnd(s: seq<byte>): (r: seq<byte>)
    ensures |r| <= |s| && r == s[..|r|]
    ensures forall k :: |r| <= k < |s| ==> IsTrimmable(s[k])
    ensures r == [] || !IsTrimmable(r[|r| - 1])
  {
    if s == [] || !IsTrimmable(s[|s| - 1]) then s else TrimEnd(s[..|s| - 1])
  }

  /** How many bytes `ltrim` cuts from the front. */
  function LeadingCut(s: seq<byte>): (n: nat)
    ensures n <= |s|
  {
    |s| - |TrimStart(s)|
  }

  /** `trim`: nothing trimmable is left at either end. */
  function Trim(s: seq<byte>): (r: seq<byte>)
    ensures IsTrimmed(r) && |r| <= |s|
  {
    TrimEnd(TrimStart(s))
  }

  /** `trim` keeps a contiguous part of its input and cuts only trimmable bytes from
      either end of it. */
  lemma TrimCutsOnlyTrimmable(s: seq<byte>)
    ensures LeadingCut(s) + |Trim(s)| <= |s|
    ensures Trim(s) == s[LeadingCut(s)..LeadingCut(s) + |Trim(s)|]
    ensures forall k :: 0 <= k < LeadingCut(s) ==> IsTrimmable(s[k])
    ensures forall k :: LeadingCut(s) + |Trim(s)| <= k < |s| ==> IsTrimmable(s[k])
  {
    var n := LeadingCut(s);
    var t := TrimStart(s);
    assert t == s[n..];
    TrimEndOfSuffix(s, n);
  }

  /** Trimming the end of a suffix of `s` keeps a slice of `s`, and every byte after that
      slice is trimmable. */
  lemma TrimEndOfSuffix(s: seq<byte>, n: nat)
    requires n <= |s|
    ensures n + |TrimEnd(s[n..])| <= |s|
    ensures TrimEnd(s[n..]) == s[n..n + |TrimEnd(s[n..])|]
    ensures forall k :: n + |TrimEnd(s[n..])| <= k < |s| ==> IsTrimmable(s[k])
  {
    var t := s[n..];
    var r := TrimEnd(t);
    assert r == t[..|r|];
    assert t[..|r|] == s[n..n + |r|];
    forall k | n + |r| <= k < |s| ensures IsTrimmable(s[k]) {
      assert s[k] == t[k - n];
    }
  }

  /** Trimming text that already has no trimmable ends gives it back unchanged. */
  lemma TrimKeepsTrimmed(s: seq<byte>)
    requires IsTrimmed(s)
    ensures Trim(s) == s
  {
  }

  /** Trimming twice is trimming once. */
  lemma TrimIdempotent(s: seq<byte>)
    ensures Trim(Trim(s)) == Trim(s)
  {
    TrimKeepsTrimmed(Trim(s));
  }

  /** The UTF-8 form of one ISO/IEC 8859-1 character: ASCII stays one byte, the upper
      half becomes the two-byte form of the same code point (section 3 of RFC 3629). */
  function Utf8Of(b: byte): (u: seq<byte>)
    ensures 1 <= |u| <= 2
    ensures |u| == 1 <==> b < 0x80
    ensures |u| == 1 ==> u == [b]
    ensures |u| == 2 ==> u[0] == 0xC0 + b / 64 && u[1] == 0x80 + b % 64
  {
    if b < 0x80 then [b] else [0xC0 + b / 64, 0x80 + b % 64]
  }

  /** Latin-1 to UTF-8, character by character. */
  function Latin1ToUtf8(s: seq<byte>): (u: seq<byte>)
    ensures |s| <= |u| <= 2 * |s|
  {
    if s == [] then [] else Utf8Of(s[0]) + Latin1ToUtf8(s[1..])
  }

  /** Decoding the one- and two-byte UTF-8 forms back to Latin-1; None when the input
      holds anything Latin1ToUtf8 never produces. */
  function Utf8ToLatin1(u: seq<byte>): Option<seq<byte>>
    decreases |u|
  {
    if u == [] then Some([])
    else if u[0] < 0x80 then
      match Utf8ToLatin1(u[1..])
      case None => None
      case Some(rest) => Some([u[0]] + rest)
    else if (u[0] == 0xC2 || u[0] == 0xC3) && |u| >= 2 && 0x80 <= u[1] < 0xC0 then
      match Utf8ToLatin1(u[2..])
      case None => None
      case Some(rest) => Some([(u[0] - 0xC0) * 64 + (u[1] - 0x80)] + rest)
    else None
  }

  /** The conversion loses nothing: every Latin-1 string comes back from its UTF-8 form. */
  lemma {:induction false} Latin1RoundTrip(s: seq<byte>)
    ensures Utf8ToLatin1(Latin1ToUtf8(s)) == Some(s)
  {
    if s != [] {
      Latin1RoundTrip(s[1..]);
      var u := Latin1ToUtf8(s);
      var h := Utf8Of(s[0]);
      assert u == h + Latin1ToUtf8(s[1..]);
      if s[0] < 0x80 {
        assert u[1..] == Latin1ToUtf8(s[1..]);
      } else {
        assert u[2..] == Latin1ToUtf8(s[1..]);
        assert (u[0] - 0xC0) * 64 + (u[1] - 0x80) == s[0];
      }
      assert [s[0]] + s[1..] == s;
    }
  }

  /** Plain ASCII passes through the conversion unchanged. */
  lemma {:induction false} AsciiUnchanged(s: seq<byte>)
    requires forall k :: 0 <= k < |s| ==> s[k] < 0x80
    ensures Latin1ToUtf8(s) == s
  {
    if s != [] {
      AsciiUnchanged(s[1..]);
      assert [s[0]] + s[1..] == s;
    }
  }
}
