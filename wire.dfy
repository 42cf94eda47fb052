/** Bytes, little-endian integers and the cursor-style reads the decoders are built from. */
module Wire {

  type byte = x: int | 0 <= x < 256

  datatype Option<T> = None | Some(value: T)

  datatype Result<T, E> = Success(value: T) | Failure(error: E)

  /** The outcome of reading one item at an offset: the item and the offset just past it,
      or a read that would run past the end of the buffer. */
  datatype Decoded<+T> = Ok(value: T, next: nat) | Truncated

  /** unpack('v'): unsigned 16-bit little-endian at `off`. */
  function U16At(s: seq<byte>, off: nat): (n: nat)
    requires off + 2 <= |s|
    ensures n < 0x1_0000
  {
    var lo: nat, hi: nat := s[off], s[off + 1];
    lo + 256 * hi
  }

  /** unpack('V'): unsigned 32-bit little-endian at `off`. */
  function U32At(s: seq<byte>, off: nat): (n: nat)
    requires off + 4 <= |s|
    ensures n < 0x1_0000_0000
  {
    var b0: nat, b1: nat, b2: nat, b3: nat := s[off], s[off + 1], s[off + 2], s[off + 3];
    b0 + 256 * (b1 + 256 * (b2 + 256 * b3))
  }

  /** pack('v'): the two bytes U16At reads back as `n`. */
  function U16Bytes(n: nat): (b: seq<byte>)
    requires n < 0x1_0000
    ensures |b| == 2 && U16At(b, 0) == n
  {
    [n % 256, n / 256]
  }

  /** pack('V'): the four bytes U32At reads back as `n`. */
  function U32Bytes(n: nat): (b: seq<byte>)
    requires n < 0x1_0000_0000
    ensures |b| == 4 && U32At(b, 0) == n
  {
    var q1 := n / 256;
    var q2 := q1 / 256;
    var q3 := q2 / 256;
    [n % 256, q1 % 256, q2 % 256, q3]
  }

  lemma U16AtSlice(s: seq<byte>, off: nat, b: seq<byte>)
    requires off + 2 <= |s| && s[off..off + 2] == b
    ensures |b| == 2 && U16At(s, off) == U16At(b, 0)
  {
    assert s[off] == b[0] && s[off + 1] == b[1];
  }

  lemma U32AtSlice(s: seq<byte>, off: nat, b: seq<byte>)
    requires off + 4 <= |s| && s[off..off + 4] == b
    ensures |b| == 4 && U32At(s, off) == U32At(b, 0)
  {
    assert s[off] == b[0] && s[off + 1] == b[1] && s[off + 2] == b[2] && s[off + 3] == b[3];
  }

  lemma AppendNil<T>(a: seq<T>)
    ensures a + [] == a && [] + a == a
  {
  }

  lemma AppendAssoc<T>(a: seq<T>, b: seq<T>, c: seq<T>)
    ensures a + b + c == a + (b + c)
  {
  }

  lemma SliceOfSlice<T>(s: seq<T>, a: nat, b: nat, c: nat, d: nat)
    requires a <= b <= |s| && c <= d <= b - a
    ensures s[a..b][c..d] == s[a + c..a + d]
  {
    var t := s[a..b];
    forall k | 0 <= k < d - c
      ensures t[c..d][k] == s[a + c..a + d][k]
    {
      assert t[c + k] == s[a + c + k];
    }
  }

  /** Bytes found at `off` that are `a` followed by `b`: `a` is at `off`, `b` right after. */
  lemma SliceSplit<T>(s: seq<T>, off: nat, a: seq<T>, b: seq<T>)
    requires off + |a| + |b| <= |s| && s[off..off + |a| + |b|] == a + b
    ensures s[off..off + |a|] == a && s[off + |a|..off + |a| + |b|] == b
  {
    SliceOfSlice(s, off, off + |a| + |b|, 0, |a|);
    SliceOfSlice(s, off, off + |a| + |b|, |a|, |a| + |b|);
    assert (a + b)[..|a|] == a && (a + b)[|a|..] == b;
  }

  /** The bytes U16At reads are exactly the ones U16Bytes writes back. */
  lemma U16BytesOfAt(s: seq<byte>, off: nat)
    requires off + 2 <= |s|
    ensures U16Bytes(U16At(s, off)) == s[off..off + 2]
  {
    var n := U16At(s, off);
    assert n % 256 == s[off] && n / 256 == s[off + 1];
  }

  /** The bytes U32At reads are exactly the ones U32Bytes writes back. */
  lemma U32BytesOfAt(s: seq<byte>, off: nat)
    requires off + 4 <= |s|
    ensures U32Bytes(U32At(s, off)) == s[off..off + 4]
  {
    var b0: nat, b1: nat, b2: nat, b3: nat := s[off], s[off + 1], s[off + 2], s[off + 3];
    var q2 := b2 + 256 * b3;
    var q1 := b1 + 256 * q2;
    var n := b0 + 256 * q1;
    assert n == U32At(s, off);
    assert n / 256 == q1 && n % 256 == b0;
    assert q1 / 256 == q2 && q1 % 256 == b1;
    assert q2 / 256 == b3 && q2 % 256 == b2;
  }

  /** Reading `n` items one after another from `off`, as the decoders' counted loops do;
      any truncated item truncates the whole list. */
  function Many<T>(item: (seq<byte>, nat) -> Decoded<T>, s: seq<byte>, off: nat, n: nat): Decoded<seq<T>>
    decreases n
  {
    if n == 0 then Ok([], off)
    else
      match item(s, off)
      case Truncated => Truncated
      case Ok(x, mid) => Then([x], Many(item, s, mid, n - 1))
  }

  /** Puts the items already read in front of the ones still to read. */
  function Then<T>(done: seq<T>, rest: Decoded<seq<T>>): Decoded<seq<T>>
  {
    match rest
    case Truncated => Truncated
    case Ok(xs, e) => Ok(done + xs, e)
  }

  /** One step of a counted read: the first item, then the remaining `n - 1`. */
  lemma ManyStep<T>(item: (seq<byte>, nat) -> Decoded<T>, s: seq<byte>, off: nat, n: nat, x: T, mid: nat)
    requires n > 0 && item(s, off) == Ok(x, mid)
    ensures Many(item, s, off, n) == Then([x], Many(item, s, mid, n - 1))
  {
  }

  /** A counted read stops at the first item that runs past the end. */
  lemma ManyStops<T>(item: (seq<byte>, nat) -> Decoded<T>, s: seq<byte>, off: nat, n: nat)
    requires n > 0 && item(s, off).Truncated?
    ensures Many(item, s, off, n).Truncated?
  {
  }

  /** A counted read whose first item and remaining items are known. */
  lemma ManyCons<T>(item: (seq<byte>, nat) -> Decoded<T>, s: seq<byte>, off: nat,
                    x: T, mid: nat, xs: seq<T>, end: nat)
    requires item(s, off) == Ok(x, mid) && Many(item, s, mid, |xs|) == Ok(xs, end)
    ensures Many(item, s, off, |xs| + 1) == Ok([x] + xs, end)
  {
  }

  lemma ConsTail<T>(xs: seq<T>)
    requires xs != []
    ensures [xs[0]] + xs[1..] == xs
  {
  }

  lemma ThenNothing<T>(d: Decoded<seq<T>>)
    ensures Then([], d) == d
  {
    if d.Ok? {
      assert [] + d.value == d.value;
    }
  }

  lemma ThenThen<T>(a: seq<T>, b: seq<T>, d: Decoded<seq<T>>)
    ensures Then(a, Then(b, d)) == Then(a + b, d)
  {
    if d.Ok? {
      assert a + (b + d.value) == (a + b) + d.value;
    }
  }

  /** A counted read that succeeds yields exactly the announced number of items. */
  lemma {:induction false} ManyCount<T>(item: (seq<byte>, nat) -> Decoded<T>, s: seq<byte>, off: nat, n: nat)
    requires Many(item, s, off, n).Ok?
    ensures |Many(item, s, off, n).value| == n
    decreases n
  {
    if n > 0 {
      var mid := item(s, off).next;
      ManyCount(item, s, mid, n - 1);
    }
  }

  /** The encodings of the items, one after another, as a server writes a list. */
  function Concat<T>(enc: T -> seq<byte>, xs: seq<T>): seq<byte>
  {
    if xs == [] then [] else enc(xs[0]) + Concat(enc, xs[1..])
  }

  /** `item` reads `x` back from its encoding, whatever bytes come before and after it. */
  ghost predicate ReadsBack<T>(item: (seq<byte>, nat) -> Decoded<T>, enc: T -> seq<byte>, x: T)
  {
    forall p: seq<byte>, t: seq<byte> :: item(p + enc(x) + t, |p|) == Ok(x, |p| + |enc(x)|)
  }

  /** When every item reads back from its own encoding, a counted read placed where the
      encoded list starts gives back the whole list and stops right after it. */
  lemma {:induction false} ManyReadsConcat<T>(item: (seq<byte>, nat) -> Decoded<T>, enc: T -> seq<byte>,
                                              p: seq<byte>, xs: seq<T>, t: seq<byte>)
    requires forall i :: 0 <= i < |xs| ==> ReadsBack(item, enc, xs[i])
    ensures Many(item, p + Concat(enc, xs) + t, |p|, |xs|) == Ok(xs, |p| + |Concat(enc, xs)|)
    decreases |xs|
  {
    if xs != [] {
      var e := enc(xs[0]);
      var rest := xs[1..];
      var es := Concat(enc, rest);
      var s := p + e + es + t;
      AppendAssoc(p, e, es);
      assert p + Concat(enc, xs) + t == s;
      AppendAssoc(p + e, es, t);
      assert ReadsBack(item, enc, xs[0]);
      assert item(p + e + (es + t), |p|) == Ok(xs[0], |p| + |e|);
      assert forall i :: 0 <= i < |rest| ==> rest[i] == xs[i + 1];
      ManyReadsConcat(item, enc, p + e, rest, t);
      ManyCons(item, s, |p|, xs[0], |p + e|, rest, |p + e| + |es|);
      ConsTail(xs);
    }
  }

  /** When every item `item` can read has property `P`, so has every item of a counted read. */
  lemma {:induction false} ManyAll<T>(item: (seq<byte>, nat) -> Decoded<T>, P: T -> bool,
                                      s: seq<byte>, off: nat, n: nat)
    requires forall o: nat :: item(s, o).Ok? ==> P(item(s, o).value)
    requires Many(item, s, off, n).Ok?
    ensures forall i :: 0 <= i < |Many(item, s, off, n).value| ==> P(Many(item, s, off, n).value[i])
    decreases n
  {
    if n > 0 {
      var x, mid := item(s, off).value, item(s, off).next;
      ManyStep(item, s, off, n, x, mid);
      ManyAll(item, P, s, mid, n - 1);
    }
  }

  /** One turn of a loop that appends each item read to the items `done` so far. */
  lemma ManyAppendStep<T>(item: (seq<byte>, nat) -> Decoded<T>, s: seq<byte>, off: nat, n: nat,
                          done: seq<T>, x: T, mid: nat)
    requires n > 0 && item(s, off) == Ok(x, mid)
    ensures Then(done, Many(item, s, off, n)) == Then(done + [x], Many(item, s, mid, n - 1))
  {
    ManyStep(item, s, off, n, x, mid);
    ThenThen(done, [x], Many(item, s, mid, n - 1));
  }
}
