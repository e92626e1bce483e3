/** The per-chunk palette: an ordered list of block identifiers written as a
    u16 count followed by u16-length-prefixed UTF-8 strings. Air-marked
    identifiers are never stored. */
module Palette {
  import opened Bytes
  import opened Errors
  import opened Streams

  predicate HasAir(p: seq<Str>) {
    exists i :: 0 <= i < |p| && IsAir(p[i])
  }

  /** `validate_palette`: an `any` over the entries. */
  function ValidatePalette(p: seq<Str>): (r: Result<()>)
    ensures r.Err? <==> HasAir(p)
    ensures r.Err? ==> r.error == AirInPalette
  {
    if p == [] then Ok(())
    else if IsAir(p[0]) then Err(AirInPalette)
    else
      var r := ValidatePalette(p[1..]);
      assert HasAir(p[1..]) ==> HasAir(p) by {
        if HasAir(p[1..]) {
          var i :| 0 <= i < |p[1..]| && IsAir(p[1..][i]);
          assert IsAir(p[i + 1]);
        }
      }
      assert HasAir(p) ==> HasAir(p[1..]) by {
        if HasAir(p) {
          var i :| 0 <= i < |p| && IsAir(p[i]);
          assert i != 0 && IsAir(p[1..][i - 1]);
        }
      }
      r
  }

  /** One entry on the wire: its byte length as a u16, then its bytes. */
  function EntryBytes(e: Str): (b: seq<u8>)
    ensures |b| == 2 + |e|
  {
    U16Le(AsU16(|e|)) + e
  }

  /** Total encoded size of the entries: two length bytes plus the bytes of each. */
  function EncodedSize(p: seq<Str>): nat {
    if p == [] then 0 else 2 + |p[0]| + EncodedSize(p[1..])
  }

  /** The entries written one after the other take `EncodedSize` bytes. */
  lemma {:induction false} EntriesSize(p: seq<Str>)
    ensures |Flatten(EntryBytes, p)| == EncodedSize(p)
  {
    if p != [] {
      EntriesSize(p[1..]);
    }
  }

  /** An entry `write_palette` accepts: not air-marked, its length fits a u16. */
  predicate Storable(e: Str) {
    !IsAir(e) && |e| <= U16_MAX
  }

  /** Every entry fits a u16 length. */
  predicate ShortEntries(p: seq<Str>) {
    forall i :: 0 <= i < |p| ==> |p[i]| <= U16_MAX
  }

  /** The position of the first entry too long for a u16 length, or `|p|`. */
  function FirstTooLong(p: seq<Str>): (k: nat)
    ensures k <= |p|
    ensures forall i :: 0 <= i < k ==> |p[i]| <= U16_MAX
    ensures k < |p| ==> |p[k]| > U16_MAX
  {
    if p == [] then 0
    else if |p[0]| > U16_MAX then 0
    else 1 + FirstTooLong(p[1..])
  }

  /** The bytes `write_palette` has emitted when it returns, successfully or not:
      nothing when the air or count check fails, else the count and every
      entry before the first over-long one. */
  function PaletteEmitted(p: seq<Str>): seq<u8> {
    if ValidatePalette(p).Err? || |p| > U16_MAX then []
    else U16Le(|p|) + Flatten(EntryBytes, p[..FirstTooLong(p)])
  }

  /** `write_palette` as a value: the encoding of an acceptable palette, or the
      error of the first check it fails (air, then count, then entry length). */
  function EncodePalette(p: seq<Str>): (r: Result<seq<u8>>)
    ensures HasAir(p) ==> r == Err(AirInPalette)
    ensures !HasAir(p) && |p| > U16_MAX ==> r == Err(PaletteError(TooManyEntries))
    ensures !HasAir(p) && |p| <= U16_MAX && !ShortEntries(p) ==> r == Err(PaletteError(EntryTooLong))
    ensures r.Ok? <==> !HasAir(p) && |p| <= U16_MAX && ShortEntries(p)
    ensures r.Ok? ==> r.value == PaletteEmitted(p)
    ensures r.Ok? ==> |r.value| == 2 + EncodedSize(p) && r.value[..2] == U16Le(|p|)
  {
    if ValidatePalette(p).Err? then Err(AirInPalette)
    else if |p| > U16_MAX then Err(PaletteError(TooManyEntries))
    else if FirstTooLong(p) < |p| then Err(PaletteError(EntryTooLong))
    else
      assert p[..FirstTooLong(p)] == p;
      EntriesSize(p);
      Ok(U16Le(|p|) + Flatten(EntryBytes, p))
  }

  method WritePalette(w: Sink, p: seq<Str>) returns (res: Result<()>)
    modifies w
    ensures res == if EncodePalette(p).Ok? then Ok(()) else Err(EncodePalette(p).error)
    ensures w.data == Overwrite(old(w.data), old(w.pos), PaletteEmitted(p))
    ensures w.pos == old(w.pos) + |PaletteEmitted(p)|
  {
    var valid := ValidatePalette(p);
    if valid.Err? {
      return Err(valid.error);
    }
    if |p| > U16_MAX {
      return Err(PaletteError(TooManyEntries));
    }
    ghost var d0, p0 := w.data, w.pos;
    w.WriteU16Le(|p|);
    var k := WriteEntries(w, p);
    OverwriteThen(d0, p0, U16Le(|p|), Flatten(EntryBytes, p[..k]));
    if k < |p| {
      return Err(PaletteError(EntryTooLong));
    }
    assert p[..k] == p;
    res := Ok(());
  }

  /** The body of `write_palette`'s loop, for an entry whose length fits a u16. */
  method WriteEntry(w: Sink, e: Str)
    requires |e| <= U16_MAX
    modifies w
    ensures w.data == Overwrite(old(w.data), old(w.pos), EntryBytes(e))
    ensures w.pos == old(w.pos) + 2 + |e|
  {
    ghost var d0, p0 := w.data, w.pos;
    w.WriteU16Le(|e|);
    w.WriteAll(e);
    OverwriteThen(d0, p0, U16Le(|e|), e);
  }

  /** The loop of `write_palette`: writes entries until the first one too long
      for its length prefix; returns how many were written. */
  method WriteEntries(w: Sink, p: seq<Str>) returns (k: nat)
    modifies w
    ensures k == FirstTooLong(p)
    ensures w.data == Overwrite(old(w.data), old(w.pos), Flatten(EntryBytes, p[..k]))
    ensures w.pos == old(w.pos) + |Flatten(EntryBytes, p[..k])|
  {
    ghost var d0, p0 := w.data, w.pos;
    assert p[..0] == [];
    k := 0;
    while k < |p|
      invariant 0 <= k <= |p|
      invariant forall j :: 0 <= j < k ==> |p[j]| <= U16_MAX
      invariant w.data == Overwrite(d0, p0, Flatten(EntryBytes, p[..k]))
      invariant w.pos == p0 + |Flatten(EntryBytes, p[..k])|
    {
      if |p[k]| > U16_MAX {
        return;
      }
      WriteEntry(w, p[k]);
      OverwriteThen(d0, p0, Flatten(EntryBytes, p[..k]), EntryBytes(p[k]));
      assert p[..k + 1] == p[..k] + [p[k]];
      FlattenAppend(EntryBytes, p[..k], p[k]);
      k := k + 1;
    }
  }

  /** One entry as `read_palette` reads it at `p`: a u16 length and that many
      bytes, refused when they are not UTF-8 or are air-marked. */
  function ParseEntry(d: seq<u8>, p: nat): (r: Result<(Str, nat)>)
    ensures r.Ok? ==> r.value.1 == p + 2 + |r.value.0| <= |d| && !IsAir(r.value.0)
    ensures p + 2 > |d| || p + 2 + FromU16Le(d[p..p + 2]) > |d| ==> r == Err(Io)
    ensures p + 2 <= |d| && p + 2 + FromU16Le(d[p..p + 2]) <= |d| ==>
      var e := d[p + 2..p + 2 + FromU16Le(d[p..p + 2])];
      r == if !IsUtf8(e) then Err(PaletteError(NotUtf8)) else if IsAir(e) then Err(AirInPalette) else Ok((e, p + 2 + |e|))
  {
    var len :- ParseU16Le(d, p);
    var raw :- TakeBytes(d, len.1, len.0);
    if !IsUtf8(raw.0) then Err(PaletteError(NotUtf8))
    else if IsAir(raw.0) then Err(AirInPalette)
    else
      var entry: Str := raw.0;
      Ok((entry, raw.1))
  }

  /** `read_palette`: a u16 count, then the entries. */
  function ParsePalette(d: seq<u8>, p: nat): (r: Result<(seq<Str>, nat)>)
    ensures r.Ok? ==> !HasAir(r.value.0)
  {
    var count :- ParseU16Le(d, p);
    ManyAll(ParseEntry, e => !IsAir(e), d, count.1, count.0);
    Many(ParseEntry, d, count.1, count.0)
  }

  method ReadPalette(r: Source) returns (res: Result<seq<Str>>)
    modifies r
    ensures Follows(ParsePalette(r.data, old(r.pos)), res, r.pos)
  {
    var count :- r.ReadU16Le();
    res := ReadEntries(r, count);
  }

  /** The body of `read_palette`'s loop. */
  method ReadEntry(r: Source) returns (res: Result<Str>)
    modifies r
    ensures Follows(ParseEntry(r.data, old(r.pos)), res, r.pos)
  {
    var len :- r.ReadU16Le();
    var raw :- r.ReadExact(len);
    if !IsUtf8(raw) {
      return Err(PaletteError(NotUtf8));
    }
    if IsAir(raw) {
      return Err(AirInPalette);
    }
    res := Ok(raw);
  }

  /** The loop of `read_palette`. */
  method ReadEntries(r: Source, count: nat) returns (res: Result<seq<Str>>)
    modifies r
    ensures Follows(Many(ParseEntry, r.data, old(r.pos), count), res, r.pos)
  {
    var palette: seq<Str> := [];
    PrefixedNothing(Many(ParseEntry, r.data, r.pos, count));
    for i := 0 to count
      invariant Many(ParseEntry, r.data, old(r.pos), count) == Prefixed(palette, Many(ParseEntry, r.data, r.pos, count - i))
    {
      var entry :- ReadEntry(r);
      PrefixedTwice(palette, [entry], Many(ParseEntry, r.data, r.pos, count - i - 1));
      palette := palette + [entry];
    }
    assert palette + [] == palette;
    res := Ok(palette);
  }

  lemma EntryRoundTrip(e: Str, d: seq<u8>, at: nat)
    requires |e| <= U16_MAX && !IsAir(e)
    requires At(d, at, EntryBytes(e))
    ensures ParseEntry(d, at) == Ok((e, at + 2 + |e|))
  {
    AtSlice(d, at, EntryBytes(e));
    assert d[at..at + 2] == EntryBytes(e)[..2] == U16Le(|e|);
    U16LeRoundTrip(|e|);
    assert d[at + 2..at + 2 + |e|] == EntryBytes(e)[2..] == e;
  }

  /** Any storable entry is read back from wherever it was written. */
  lemma EntriesReadable(d: seq<u8>)
    ensures ReadsBack<Str, Str>(EntryBytes, ParseEntry, Same, Storable, d)
  {
    forall e: Str, q: nat | Storable(e) && At(d, q, EntryBytes(e))
      ensures ParseEntry(d, q) == Ok((e, q + |EntryBytes(e)|))
    {
      EntryRoundTrip(e, d, q);
    }
  }

  /** Entries written back to back are read back, in order. */
  lemma EntriesRoundTrip(p: seq<Str>, d: seq<u8>, at: nat)
    requires !HasAir(p) && ShortEntries(p)
    requires At(d, at, Flatten(EntryBytes, p))
    ensures Many(ParseEntry, d, at, |p|) == Ok((p, at + |Flatten(EntryBytes, p)|))
  {
    EntriesReadable(d);
    FlattenReads<Str, Str>(EntryBytes, ParseEntry, Same, Storable, d, at, p, p);
  }

  /** Reading back an encoded palette gives the same entries in the same order
      and consumes exactly the bytes written. */
  lemma PaletteRoundTrip(p: seq<Str>, d: seq<u8>, at: nat)
    requires EncodePalette(p).Ok?
    requires At(d, at, EncodePalette(p).value)
    ensures ParsePalette(d, at) == Ok((p, at + |EncodePalette(p).value|))
  {
    assert p[..FirstTooLong(p)] == p;
    SliceSplit(d, at, U16Le(|p|), Flatten(EntryBytes, p));
    U16LeRoundTrip(|p|);
    EntriesRoundTrip(p, d, at + 2);
  }

  predicate NoDuplicates<T(==)>(s: seq<T>) {
    forall i, j :: 0 <= i < j < |s| ==> s[i] != s[j]
  }

  /** The identifiers of `ids` that are not air-marked, each once, in the order
      of their first appearance: the palette `create_palette` builds. */
  function Dedup(ids: seq<Str>): (r: seq<Str>)
    ensures NoDuplicates(r)
    ensures forall e :: e in r <==> e in ids && !IsAir(e)
  {
    if ids == [] then []
    else
      var d := Dedup(ids[..|ids| - 1]);
      var id := ids[|ids| - 1];
      assert ids == ids[..|ids| - 1] + [id];
      if IsAir(id) || id in d then d else d + [id]
  }

  /** The position of the first occurrence of `x` in `s`. */
  function FirstIndex<T(==)>(s: seq<T>, x: T): (k: nat)
    requires x in s
    ensures k < |s| && s[k] == x && forall j :: 0 <= j < k ==> s[j] != x
  {
    if s[0] == x then 0 else 1 + FirstIndex(s[1..], x)
  }

  lemma FirstIndexAppend<T>(s: seq<T>, y: T, x: T)
    requires x in s
    ensures FirstIndex(s + [y], x) == FirstIndex(s, x)
  {
    var k := FirstIndex(s, x);
    assert forall j :: 0 <= j < |s| ==> (s + [y])[j] == s[j];
    assert (s + [y])[k] == x;
  }

  /** The palette lists identifiers in the order they first appear in the input. */
  lemma {:induction false} DedupFirstSeen(ids: seq<Str>)
    ensures forall i, j :: 0 <= i < j < |Dedup(ids)| ==>
      FirstIndex(ids, Dedup(ids)[i]) < FirstIndex(ids, Dedup(ids)[j])
  {
    if ids != [] {
      var front := ids[..|ids| - 1];
      var id := ids[|ids| - 1];
      assert ids == front + [id];
      DedupFirstSeen(front);
      var d := Dedup(front);
      forall e | e in d ensures FirstIndex(ids, e) == FirstIndex(front, e) {
        FirstIndexAppend(front, id, e);
      }
      if !(IsAir(id) || id in d) {
        assert Dedup(ids) == d + [id];
        assert id !in front;
        assert FirstIndex(ids, id) == |front|;
        forall i, j | 0 <= i < j < |Dedup(ids)|
          ensures FirstIndex(ids, Dedup(ids)[i]) < FirstIndex(ids, Dedup(ids)[j])
        {
          assert Dedup(ids)[i] == d[i];
          if j < |d| {
            assert Dedup(ids)[j] == d[j];
          }
        }
      }
    }
  }

  /** Once the palette fits u16 indices, the stored index of each key finds it. */
  lemma IndexLookup(unique: seq<Str>, index: map<Str, u16>)
    requires |unique| <= U16_MAX
    requires forall e :: e in index <==> e in unique
    requires forall j :: 0 <= j < |unique| ==> index[unique[j]] as int == j % 0x1_0000
    ensures forall e :: e in index ==> index[e] as int < |unique| && unique[index[e]] == e
  {
    forall e | e in index ensures index[e] as int < |unique| && unique[index[e]] == e {
      var j :| 0 <= j < |unique| && unique[j] == e;
    }
  }

  /** `create_palette`: the deduplicated palette of `ids` and the index of each
      identifier in it, or a palette error when it would need more than 65535
      entries. */
  method CreatePalette(ids: seq<Str>) returns (res: Result<(seq<Str>, map<Str, u16>)>)
    ensures res.Ok? <==> |Dedup(ids)| <= U16_MAX
    ensures res.Err? ==> res.error == PaletteError(TooManyEntries)
    ensures res.Ok? ==> res.value.0 == Dedup(ids)
    ensures res.Ok? ==> forall e :: e in res.value.1 <==> e in res.value.0
    ensures res.Ok? ==> forall e :: e in res.value.1 ==>
      res.value.1[e] as int < |res.value.0| && res.value.0[res.value.1[e]] == e
  {
    var unique: seq<Str> := [];
    var index: map<Str, u16> := map[];
    for i := 0 to |ids|
      invariant unique == Dedup(ids[..i])
      invariant forall e :: e in index <==> e in unique
      invariant forall j :: 0 <= j < |unique| ==> index[unique[j]] as int == j % 0x1_0000
    {
      assert ids[..i + 1][..i] == ids[..i];
      var id := ids[i];
      assert Dedup(ids[..i + 1]) == if IsAir(id) || id in unique then unique else unique + [id];
      if IsAir(id) {
        continue;
      }
      if id !in index {
        index := index[id := AsU16(|unique|)];
        unique := unique + [id];
      }
    }
    assert ids[..|ids|] == ids;
    if |unique| > U16_MAX {
      return Err(PaletteError(TooManyEntries));
    }
    IndexLookup(unique, index);
    res := Ok((unique, index));
  }
}
