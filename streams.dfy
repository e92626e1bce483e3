/** In-memory byte streams standing in for the readers and writers the codec
    is generic over: `Source` is a `Read + Seek` over a fixed byte image and
    `Sink` is a `Write + Seek` over a growable one. The only failure an
    in-memory stream has is a read that runs past the end. */
module Streams {
  import opened Bytes
  import opened Errors

  /** The image `d` after writing `b` at position `p`: a gap between the old end
      and `p` is first filled with zeros, the bytes after the write are kept,
      and writing nothing changes nothing. */
  function Overwrite(d: seq<u8>, p: nat, b: seq<u8>): seq<u8>
    decreases if |d| < p then p - |d| else 0
  {
    if b == [] then d
    else if |d| < p then Overwrite(d + [0], p, b)
    else d[..p] + b + (if p + |b| < |d| then d[p + |b|..] else [])
  }

  lemma {:induction false} OverwriteLength(d: seq<u8>, p: nat, b: seq<u8>)
    ensures |Overwrite(d, p, b)| == if b != [] && p + |b| > |d| then p + |b| else |d|
    decreases if |d| < p then p - |d| else 0
  {
    if b != [] && |d| < p {
      OverwriteLength(d + [0], p, b);
    }
  }

  /** Byte by byte: the written bytes, else the old ones, else the zero fill. */
  lemma {:induction false} OverwriteAt(d: seq<u8>, p: nat, b: seq<u8>, i: nat)
    requires i < |Overwrite(d, p, b)|
    ensures Overwrite(d, p, b)[i] == if p <= i < p + |b| then b[i - p] else if i < |d| then d[i] else 0
    decreases if |d| < p then p - |d| else 0
  {
    if b != [] && |d| < p {
      OverwriteAt(d + [0], p, b, i);
    }
  }

  lemma OverwriteAtEnd(d: seq<u8>, b: seq<u8>)
    ensures Overwrite(d, |d|, b) == d + b
  {
  }

  /** Rewriting a middle part with bytes of the same length replaces just that part. */
  lemma OverwriteMiddle(a: seq<u8>, b: seq<u8>, c: seq<u8>, b2: seq<u8>)
    requires |b2| == |b|
    ensures Overwrite(a + b + c, |a|, b2) == a + b2 + c
  {
    var d := a + b + c;
    if b2 != [] {
      assert d[..|a|] == a;
      assert |a| + |b2| < |d| ==> d[|a| + |b2|..] == c;
      assert |a| + |b2| >= |d| ==> c == [];
    }
  }

  /** Two writes in a row are one write of the concatenation. */
  lemma OverwriteThen(d: seq<u8>, p: nat, a: seq<u8>, b: seq<u8>)
    ensures Overwrite(Overwrite(d, p, a), p + |a|, b) == Overwrite(d, p, a + b)
  {
    var l := Overwrite(Overwrite(d, p, a), p + |a|, b);
    var r := Overwrite(d, p, a + b);
    OverwriteLength(d, p, a);
    OverwriteLength(Overwrite(d, p, a), p + |a|, b);
    OverwriteLength(d, p, a + b);
    assert |l| == |r|;
    forall i | 0 <= i < |l| ensures l[i] == r[i] {
      OverwriteAt(Overwrite(d, p, a), p + |a|, b, i);
      OverwriteAt(d, p, a + b, i);
      if i < |Overwrite(d, p, a)| {
        OverwriteAt(d, p, a, i);
      }
      if p + |a| <= i < p + |a| + |b| {
        assert (a + b)[i - p] == b[i - p - |a|];
      } else if p <= i < p + |a| {
        assert (a + b)[i - p] == a[i - p];
      }
    }
  }

  /** The bytes `b` are found in `d` at position `q`, byte by byte. */
  predicate At(d: seq<u8>, q: nat, b: seq<u8>)
    decreases |b|
  {
    if b == [] then q <= |d| else q < |d| && d[q] == b[0] && At(d, q + 1, b[1..])
  }

  /** `At` as a slice of `d`. */
  lemma {:induction false} AtSlice(d: seq<u8>, q: nat, b: seq<u8>)
    ensures At(d, q, b) <==> q + |b| <= |d| && d[q..q + |b|] == b
    decreases |b|
  {
    if b != [] {
      AtSlice(d, q + 1, b[1..]);
      if q + |b| <= |d| {
        assert d[q..q + |b|] == [d[q]] + d[q + 1..q + |b|];
        assert b == [b[0]] + b[1..];
      }
    }
  }

  /** Bytes `a + b` found at `at` are `a` at `at` followed by `b`. */
  lemma SliceSplit(d: seq<u8>, at: nat, a: seq<u8>, b: seq<u8>)
    requires At(d, at, a + b)
    ensures At(d, at, a) && At(d, at + |a|, b)
  {
    AtSlice(d, at, a + b);
    AtSlice(d, at, a);
    AtSlice(d, at + |a|, b);
    assert d[at..at + |a|] == (a + b)[..|a|];
    assert d[at + |a|..at + |a| + |b|] == (a + b)[|a|..];
  }

  /** Both halves of a concatenation are found in it. */
  lemma JoinedAt(a: seq<u8>, b: seq<u8>)
    ensures At(a + b, 0, a) && At(a + b, |a|, b)
  {
    AtSlice(a + b, 0, a);
    AtSlice(a + b, |a|, b);
    assert (a + b)[0..|a|] == a && (a + b)[|a|..|a| + |b|] == b;
  }

  /** Each of four pieces found back to back at `at` starts where the previous one ends. */
  lemma FourParts(d: seq<u8>, at: nat, a: seq<u8>, b: seq<u8>, c: seq<u8>, e: seq<u8>)
    requires At(d, at, a + b + c + e)
    ensures At(d, at, a) && At(d, at + |a|, b) && At(d, at + |a| + |b|, c) && At(d, at + |a| + |b| + |c|, e)
  {
    SliceSplit(d, at, a + b + c, e);
    SliceSplit(d, at, a + b, c);
    SliceSplit(d, at, a, b);
  }

  /** `FourParts` with the positions of the pieces given by name. */
  lemma PartsAt(d: seq<u8>, a: seq<u8>, b: seq<u8>, c: seq<u8>, e: seq<u8>, pb: nat, pc: nat, pe: nat)
    requires At(d, 0, a + b + c + e) && pb == |a| && pc == pb + |b| && pe == pc + |c|
    ensures At(d, 0, a) && At(d, pb, b) && At(d, pc, c) && At(d, pe, e)
  {
    FourParts(d, 0, a, b, c, e);
  }

  /** The five pieces of a concatenation as its slices, at the positions
      given by name. */
  lemma FiveSlices(d: seq<u8>, a: seq<u8>, b: seq<u8>, c: seq<u8>, e: seq<u8>, g: seq<u8>,
                   pb: nat, pc: nat, pe: nat, pg: nat)
    requires d == a + b + c + e + g
    requires pb == |a| && pc == pb + |b| && pe == pc + |c| && pg == pe + |e|
    ensures d[..pb] == a && d[pb..pc] == b && d[pc..pe] == c && d[pe..pg] == e && d[pg..] == g
  {
    var ab := a + b;
    var abc := ab + c;
    var abce := abc + e;
    assert d == abce + g && d[..pg] == abce && d[pg..] == g;
    assert abce[..pe] == abc && abce[pe..] == e;
    assert abc[..pc] == ab && abc[pc..] == c;
    assert ab[..pb] == a && ab[pb..] == b;
  }

  /** Part of bytes `b` found at `at`. */
  lemma SliceInside(d: seq<u8>, at: nat, b: seq<u8>, i: nat, j: nat)
    requires At(d, at, b) && i <= j <= |b|
    ensures at + j <= |d| && d[at + i..at + j] == b[i..j]
  {
    AtSlice(d, at, b);
    forall k | 0 <= k < j - i ensures d[at + i..at + j][k] == b[i..j][k] {
      assert d[at..at + |b|][i + k] == d[at + i + k];
    }
  }

  /** The bytes of `d` from position `p` on; nothing once `p` is past the end. */
  function Suffix(d: seq<u8>, p: nat): seq<u8> {
    if p <= |d| then d[p..] else []
  }

  // Reads are specified by parse functions over the whole image `d` and a
  // position `p` in it; a parse yields a value and the position after it.

  /** A read of `n` bytes at `p`: fails when fewer remain, except that reading
      nothing always succeeds. */
  function TakeBytes(d: seq<u8>, p: nat, n: nat): (r: Result<(seq<u8>, nat)>)
    ensures r.Ok? <==> n == 0 || p + n <= |d|
    ensures r.Ok? ==> |r.value.0| == n && r.value.1 == p + n
    ensures r.Ok? && n > 0 ==> r.value.0 == d[p..p + n]
    ensures r.Err? ==> r.error == Io
  {
    if p + n <= |d| then Ok((d[p..p + n], p + n))
    else if n == 0 then Ok(([], p))
    else Err(Io)
  }

  function ParseU8(d: seq<u8>, p: nat): Result<(u8, nat)> {
    if p + 1 <= |d| then Ok((d[p], p + 1)) else Err(Io)
  }

  function ParseU16Le(d: seq<u8>, p: nat): Result<(u16, nat)> {
    if p + 2 <= |d| then Ok((FromU16Le(d[p..p + 2]), p + 2)) else Err(Io)
  }

  function ParseU16Be(d: seq<u8>, p: nat): Result<(u16, nat)> {
    if p + 2 <= |d| then Ok((FromU16Be(d[p..p + 2]), p + 2)) else Err(Io)
  }

  function ParseU32Le(d: seq<u8>, p: nat): Result<(u32, nat)> {
    if p + 4 <= |d| then Ok((FromU32Le(d[p..p + 4]), p + 4)) else Err(Io)
  }

  function ParseI32Le(d: seq<u8>, p: nat): Result<(i32, nat)> {
    if p + 4 <= |d| then Ok((FromI32Le(d[p..p + 4]), p + 4)) else Err(Io)
  }

  /** Put the items `acc` in front of a parse of what follows them. */
  function Prefixed<T>(acc: seq<T>, r: Result<(seq<T>, nat)>): Result<(seq<T>, nat)> {
    match r
    case Ok(v) => Ok((acc + v.0, v.1))
    case Err(e) => Err(e)
  }

  lemma PrefixedNothing<T>(r: Result<(seq<T>, nat)>)
    ensures Prefixed([], r) == r
  {
    if r.Ok? {
      assert [] + r.value.0 == r.value.0;
    }
  }

  lemma PrefixedTwice<T>(a: seq<T>, b: seq<T>, r: Result<(seq<T>, nat)>)
    ensures Prefixed(a, Prefixed(b, r)) == Prefixed(a + b, r)
  {
    if r.Ok? {
      assert a + (b + r.value.0) == (a + b) + r.value.0;
    }
  }

  /** Items encoded one after the other. */
  function Flatten<T>(enc: T -> seq<u8>, xs: seq<T>): seq<u8> {
    if xs == [] then [] else enc(xs[0]) + Flatten(enc, xs[1..])
  }

  lemma {:induction false} FlattenAppend<T>(enc: T -> seq<u8>, xs: seq<T>, x: T)
    ensures Flatten(enc, xs + [x]) == Flatten(enc, xs) + enc(x)
  {
    if xs == [] {
      assert xs + [x] == [x];
    } else {
      assert (xs + [x])[1..] == xs[1..] + [x];
      FlattenAppend(enc, xs[1..], x);
    }
  }

  /** Every item is encoded in exactly `w` bytes. */
  ghost predicate Width<T(!new)>(enc: T -> seq<u8>, w: nat) {
    forall x :: |enc(x)| == w
  }

  lemma {:induction false} FlattenWidth<T(!new)>(enc: T -> seq<u8>, w: nat, xs: seq<T>)
    requires Width(enc, w)
    ensures |Flatten(enc, xs)| == w * |xs|
  {
    if xs != [] {
      FlattenWidth(enc, w, xs[1..]);
    }
  }

  /** With fixed-width items, item `i` is the `w` bytes at offset `w i`. */
  lemma {:induction false} FlattenAt<T(!new)>(enc: T -> seq<u8>, w: nat, xs: seq<T>, i: nat)
    requires Width(enc, w) && i < |xs|
    ensures w * i + w <= |Flatten(enc, xs)| && Flatten(enc, xs)[w * i..w * i + w] == enc(xs[i])
  {
    FlattenWidth(enc, w, xs);
    if i > 0 {
      FlattenAt(enc, w, xs[1..], i - 1);
      assert Flatten(enc, xs)[w..] == Flatten(enc, xs[1..]);
      assert w * i == w + w * (i - 1);
    }
  }

  /** `n` reads of `step` in a row, each starting where the previous one
      ended; the first failure ends the run. */
  function Many<T>(step: (seq<u8>, nat) -> Result<(T, nat)>, d: seq<u8>, p: nat, n: nat): (r: Result<(seq<T>, nat)>)
    ensures r.Ok? ==> |r.value.0| == n
    decreases n
  {
    if n == 0 then Ok(([], p))
    else
      var first :- step(d, p);
      var rest :- Many(step, d, first.1, n - 1);
      Ok(([first.0] + rest.0, rest.1))
  }

  /** A first read followed by a run of `n` is a run of `n + 1`. */
  lemma ManyCons<T>(step: (seq<u8>, nat) -> Result<(T, nat)>, d: seq<u8>, p: nat,
                    first: (T, nat), rest: (seq<T>, nat), n: nat)
    requires step(d, p) == Ok(first) && Many(step, d, first.1, n) == Ok(rest)
    ensures Many(step, d, p, n + 1) == Ok(([first.0] + rest.0, rest.1))
  {
  }

  /** Every read of `step` in `d` takes exactly `w` bytes and fails only when
      fewer remain. */
  ghost predicate Steps<T>(step: (seq<u8>, nat) -> Result<(T, nat)>, d: seq<u8>, w: nat) {
    forall q: nat :: (step(d, q).Ok? <==> q + w <= |d|) && (step(d, q).Ok? ==> step(d, q).value.1 == q + w)
  }

  /** A run of fixed-width reads succeeds exactly when all `n` items fit, and
      ends `w n` bytes on. */
  lemma {:induction false} ManyWidth<T>(step: (seq<u8>, nat) -> Result<(T, nat)>, d: seq<u8>, w: nat, p: nat, n: nat)
    requires Steps(step, d, w)
    ensures Many(step, d, p, n).Ok? <==> n == 0 || p + w * n <= |d|
    ensures Many(step, d, p, n).Ok? ==> Many(step, d, p, n).value.1 == p + w * n
    decreases n
  {
    if n > 0 {
      ManyWidth(step, d, w, p + w, n - 1);
      assert w * n == w + w * (n - 1);
    }
  }

  /** `step` reads back, as `view` of it, every acceptable item from wherever
      in `d` its encoding `enc` was written. */
  ghost predicate ReadsBack<T(!new), U>(enc: T -> seq<u8>, step: (seq<u8>, nat) -> Result<(U, nat)>,
                                        view: T -> U, good: T -> bool, d: seq<u8>) {
    forall x, q: nat {:trigger At(d, q, enc(x))} :: good(x) && At(d, q, enc(x)) ==> step(d, q) == Ok((view(x), q + |enc(x)|))
  }

  /** Every item is acceptable. */
  predicate Always<T>(x: T) {
    true
  }

  /** The identity, as a view of items read back as they were written. */
  function Same<T>(x: T): T {
    x
  }

  /** The round trip of a run: when `step` reads back each acceptable item
      from its encoding `enc`, as `view` of the item, it reads back a run of
      acceptable items written one after the other as the views `ys` of the
      items, and stops right after the last one. */
  lemma {:induction false} FlattenReads<T(!new), U>(enc: T -> seq<u8>, step: (seq<u8>, nat) -> Result<(U, nat)>,
                                                    view: T -> U, good: T -> bool, d: seq<u8>, at: nat, xs: seq<T>, ys: seq<U>)
    requires ReadsBack(enc, step, view, good, d)
    requires forall k :: 0 <= k < |xs| ==> good(xs[k])
    requires |ys| == |xs| && forall k :: 0 <= k < |xs| ==> ys[k] == view(xs[k])
    requires At(d, at, Flatten(enc, xs))
    ensures Many(step, d, at, |xs|) == Ok((ys, at + |Flatten(enc, xs)|))
    decreases |xs|
  {
    if xs != [] {
      var x, tail := xs[0], xs[1..];
      FlattenHead(enc, d, at, xs);
      var next := at + |enc(x)|;
      assert step(d, at) == Ok((ys[0], next));
      forall k | 0 <= k < |tail| ensures good(tail[k]) && ys[1..][k] == view(tail[k]) {
        assert tail[k] == xs[k + 1];
      }
      FlattenReads(enc, step, view, good, d, next, tail, ys[1..]);
      ManyCons(step, d, at, (ys[0], next), (ys[1..], next + |Flatten(enc, tail)|), |tail|);
      assert [ys[0]] + ys[1..] == ys;
    }
  }

  /** A run found at `at` is its first item there followed by the rest of it. */
  lemma FlattenHead<T>(enc: T -> seq<u8>, d: seq<u8>, at: nat, xs: seq<T>)
    requires xs != [] && At(d, at, Flatten(enc, xs))
    ensures |Flatten(enc, xs)| == |enc(xs[0])| + |Flatten(enc, xs[1..])|
    ensures At(d, at, enc(xs[0])) && At(d, at + |enc(xs[0])|, Flatten(enc, xs[1..]))
  {
    var a, b := enc(xs[0]), Flatten(enc, xs[1..]);
    assert Flatten(enc, xs) == a + b;
    SliceSplit(d, at, a, b);
  }

  /** A property every item `step` yields holds of every item of a run. */
  lemma {:induction false} ManyAll<T>(step: (seq<u8>, nat) -> Result<(T, nat)>, good: T -> bool, d: seq<u8>, p: nat, n: nat)
    requires forall q :: step(d, q).Ok? ==> good(step(d, q).value.0)
    ensures Many(step, d, p, n).Ok? ==> forall i :: 0 <= i < n ==> good(Many(step, d, p, n).value.0[i])
    decreases n
  {
    if n > 0 && step(d, p).Ok? {
      var first := step(d, p).value;
      ManyAll(step, good, d, first.1, n - 1);
      if Many(step, d, p, n).Ok? {
        var rest := Many(step, d, first.1, n - 1).value.0;
        assert Many(step, d, p, n).value.0 == [first.0] + rest;
      }
    }
  }

  /** A run fails only with an error some step fails with; when every step
      fails with `e`, so does the run. */
  lemma {:induction false} ManyErr<T>(step: (seq<u8>, nat) -> Result<(T, nat)>, e: McStreamError, d: seq<u8>, p: nat, n: nat)
    requires forall q :: step(d, q).Err? ==> step(d, q).error == e
    ensures Many(step, d, p, n).Err? ==> Many(step, d, p, n).error == e
    decreases n
  {
    if n > 0 && step(d, p).Ok? {
      ManyErr(step, e, d, step(d, p).value.1, n - 1);
    }
  }

  /** A u32 written little-endian at `q` is read back there. */
  lemma U32At(d: seq<u8>, q: nat, v: u32)
    requires At(d, q, U32Le(v))
    ensures ParseU32Le(d, q) == Ok((v, q + 4))
  {
    AtSlice(d, q, U32Le(v));
    U32LeRoundTrip(v);
  }

  /** An i32 written little-endian at `q` is read back there. */
  lemma I32At(d: seq<u8>, q: nat, v: i32)
    requires At(d, q, I32Le(v))
    ensures ParseI32Le(d, q) == Ok((v, q + 4))
  {
    AtSlice(d, q, I32Le(v));
    I32LeRoundTrip(v);
  }

  /** A stream operation's result `r` is what the parse `spec` describes: the
      same value or error, and on success the cursor `after` is where the parse
      ended. */
  predicate Follows<T(==)>(spec: Result<(T, nat)>, r: Result<T>, after: nat) {
    match spec
    case Ok(v) => r == Ok(v.0) && after == v.1
    case Err(e) => r == Err(e)
  }

  /** A reader over a fixed in-memory image (a `Cursor` or a file opened for reading). */
  class Source {
    const data: seq<u8>
    var pos: nat

    constructor (data: seq<u8>)
      ensures this.data == data && pos == 0
    {
      this.data := data;
      pos := 0;
    }

    /** The bytes still to be read; seeking past the end leaves nothing. */
    function Rest(): seq<u8>
      reads this
    {
      Suffix(data, pos)
    }

    method Seek(p: nat)
      modifies this
      ensures pos == p
    {
      pos := p;
    }

    /** `seek(SeekFrom::End(0))`: returns the stream length. */
    method SeekEnd() returns (size: nat)
      modifies this
      ensures size == |data| && pos == |data|
    {
      pos := |data|;
      size := pos;
    }

    method ReadExact(n: nat) returns (r: Result<seq<u8>>)
      modifies this
      ensures Follows(TakeBytes(data, old(pos), n), r, pos)
    {
      if pos + n <= |data| {
        r := Ok(data[pos..pos + n]);
        pos := pos + n;
      } else if n == 0 {
        r := Ok([]);
      } else {
        r := Err(Io);
      }
    }

    method ReadU8() returns (r: Result<u8>)
      modifies this
      ensures Follows(ParseU8(data, old(pos)), r, pos)
    {
      var b :- ReadExact(1);
      r := Ok(b[0]);
    }

    method ReadU16Le() returns (r: Result<u16>)
      modifies this
      ensures Follows(ParseU16Le(data, old(pos)), r, pos)
    {
      var b :- ReadExact(2);
      r := Ok(FromU16Le(b));
    }

    method ReadU16Be() returns (r: Result<u16>)
      modifies this
      ensures Follows(ParseU16Be(data, old(pos)), r, pos)
    {
      var b :- ReadExact(2);
      r := Ok(FromU16Be(b));
    }

    method ReadU32Le() returns (r: Result<u32>)
      modifies this
      ensures Follows(ParseU32Le(data, old(pos)), r, pos)
    {
      var b :- ReadExact(4);
      r := Ok(FromU32Le(b));
    }

    method ReadI32Le() returns (r: Result<i32>)
      modifies this
      ensures Follows(ParseI32Le(data, old(pos)), r, pos)
    {
      var b :- ReadExact(4);
      r := Ok(FromI32Le(b));
    }

    /** `read_to_end`: everything from the cursor on. */
    method ReadToEnd() returns (b: seq<u8>)
      modifies this
      ensures b == old(Rest())
      ensures pos == if old(pos) <= |data| then |data| else old(pos)
    {
      b := Rest();
      if pos <= |data| {
        pos := |data|;
      }
    }
  }

  /** A seekable writer over a growable in-memory image (a file opened for writing). */
  class Sink {
    var data: seq<u8>
    var pos: nat

    constructor ()
      ensures data == [] && pos == 0
    {
      data := [];
      pos := 0;
    }

    method WriteAll(b: seq<u8>)
      modifies this
      ensures data == Overwrite(old(data), old(pos), b) && pos == old(pos) + |b|
    {
      data := Overwrite(data, pos, b);
      pos := pos + |b|;
    }

    method WriteU8(v: u8)
      modifies this
      ensures data == Overwrite(old(data), old(pos), [v]) && pos == old(pos) + 1
    {
      WriteAll([v]);
    }

    method WriteU16Le(v: u16)
      modifies this
      ensures data == Overwrite(old(data), old(pos), U16Le(v)) && pos == old(pos) + 2
    {
      WriteAll(U16Le(v));
    }

    method WriteU16Be(v: u16)
      modifies this
      ensures data == Overwrite(old(data), old(pos), U16Be(v)) && pos == old(pos) + 2
    {
      WriteAll(U16Be(v));
    }

    method WriteU32Le(v: u32)
      modifies this
      ensures data == Overwrite(old(data), old(pos), U32Le(v)) && pos == old(pos) + 4
    {
      WriteAll(U32Le(v));
    }

    method WriteI32Le(v: i32)
      modifies this
      ensures data == Overwrite(old(data), old(pos), I32Le(v)) && pos == old(pos) + 4
    {
      WriteAll(I32Le(v));
    }

    method Seek(p: nat)
      modifies this
      ensures data == old(data) && pos == p
    {
      pos := p;
    }

    method SeekEnd()
      modifies this
      ensures data == old(data) && pos == |data|
    {
      pos := |data|;
    }
  }
}
