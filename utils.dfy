/** Small stream helpers: the 4 GiB size guard and a length-prefixed
    signature codec (a codec the encoder and decoder themselves do not use). */
module Utils {
  import opened Bytes
  import opened Errors
  import opened Streams

  /** `validate_file_size`: seek to the end to learn the size, refuse more than
      `0xFFFFFFFF` bytes, and otherwise rewind to the start. */
  method ValidateFileSize(r: Source) returns (res: Result<()>)
    modifies r
    ensures res.Err? <==> |r.data| > U32_MAX
    ensures res.Err? ==> res.error == FileTooLarge && r.pos == |r.data|
    ensures res.Ok? ==> r.pos == 0
  {
    var size := r.SeekEnd();
    if size > U32_MAX {
      return Err(FileTooLarge);
    }
    r.Seek(0);
    res := Ok(());
  }

  /** What `write_signature` emits: a u16 little-endian length, then the bytes. */
  function SignatureEncoding(sig: seq<u8>): (r: Result<seq<u8>>)
    ensures r.Ok? <==> |sig| <= U16_MAX
    ensures r.Err? ==> r.error == ValidationError(SignatureTooLarge)
    ensures r.Ok? ==> |r.value| == 2 + |sig| && r.value[2..] == sig
  {
    if |sig| > U16_MAX then Err(ValidationError(SignatureTooLarge))
    else Ok(U16Le(|sig|) + sig)
  }

  method WriteSignature(w: Sink, sig: seq<u8>) returns (res: Result<()>)
    modifies w
    ensures res.Ok? <==> SignatureEncoding(sig).Ok?
    ensures res.Err? ==> res.error == SignatureEncoding(sig).error && w.data == old(w.data) && w.pos == old(w.pos)
    ensures res.Ok? ==> w.data == Overwrite(old(w.data), old(w.pos), SignatureEncoding(sig).value)
    ensures res.Ok? ==> w.pos == old(w.pos) + 2 + |sig|
  {
    if |sig| > U16_MAX {
      return Err(ValidationError(SignatureTooLarge));
    }
    ghost var d0, p0 := w.data, w.pos;
    w.WriteU16Le(|sig|);
    w.WriteAll(sig);
    OverwriteThen(d0, p0, U16Le(|sig|), sig);
    res := Ok(());
  }

  /** What `read_signature` reads at `p`: a u16 little-endian length, then that many bytes. */
  function ParseSignature(d: seq<u8>, p: nat): (r: Result<(seq<u8>, nat)>)
    ensures r.Ok? ==> r.value.1 == p + 2 + |r.value.0| <= |d|
    ensures r.Err? ==> r.error == Io
  {
    var len :- ParseU16Le(d, p);
    TakeBytes(d, len.1, len.0)
  }

  method ReadSignature(r: Source) returns (res: Result<seq<u8>>)
    modifies r
    ensures Follows(ParseSignature(r.data, old(r.pos)), res, r.pos)
  {
    var n :- r.ReadU16Le();
    res := r.ReadExact(n);
  }

  /** Reading back a written signature gives it back and consumes exactly `2 + |sig|` bytes. */
  lemma SignatureRoundTrip(sig: seq<u8>, d: seq<u8>, p: nat)
    requires |sig| <= U16_MAX
    requires At(d, p, SignatureEncoding(sig).value)
    ensures ParseSignature(d, p) == Ok((sig, p + 2 + |sig|))
  {
    var e := SignatureEncoding(sig).value;
    AtSlice(d, p, e);
    assert d[p..p + 2] == e[..2] == U16Le(|sig|);
    U16LeRoundTrip(|sig|);
    assert d[p + 2..p + 2 + |sig|] == e[2..] == sig;
  }
}
