/** Integers and length-prefixed strings read off a StreamBuf, crates/stream-octets. */
module StreamOctets {
  import opened Bytes
  import opened Varint
  import opened Streams
  import opened StreamBuf

  datatype Field = U8 | U16 | U32 | U64 | VarInt

  /** How many octets the field takes, as far as `b` tells. */
  function Need(f: Field, b: bytes): (n: nat)
    ensures n >= 1
  {
    match f
    case U8 => 1
    case U16 => 2
    case U32 => 4
    case U64 => 8
    case VarInt => if b == [] then 1 else VarintWidth(b[0])
  }

  function ValueOf(f: Field, b: bytes): nat
    requires |b| == Need(f, b)
  {
    if f == VarInt then VarintValue(b) else FromBE(b)
  }

  /** The cursor read of the octets crate: the value and its width, or nothing if `s` is too short. */
  function Get(f: Field, s: bytes): (r: Option<(nat, nat)>)
    ensures r.Some? <==> Need(f, s) <= |s|
    ensures r.Some? ==> r.value.1 == Need(f, s)
  {
    var n := Need(f, s);
    if n > |s| then None else Some((ValueOf(f, s[..n]), n))
  }

  function FieldOf(limit: nat, w: Wire, f: Field): (o: Outcome<nat>)
    ensures o.Done? ==> |o.rest.bytes| < |w.bytes| && o.rest.ending == w.ending
  {
    var (b, rest) :- Take(limit, w, Need(f, w.bytes));
    Done(ValueOf(f, b), rest)
  }

  function LenPrefixed(limit: nat, w: Wire): (o: Outcome<bytes>)
    ensures o.Done? ==> |o.rest.bytes| < |w.bytes| && o.rest.ending == w.ending
  {
    var (n, rest) :- FieldOf(limit, w, VarInt);
    Take(limit, rest, n)
  }

  /** A field that is all in the buffer is the flat field, unless the flat reading is undecided. */
  lemma FieldBuffered(limit: nat, buf: bytes, tail: bytes, ending: Ending, f: Field)
    requires Need(f, buf) <= |buf|
    ensures var o := FieldOf(limit, Wire(buf + tail, ending), f);
            var n := Need(f, buf);
            (n > limit + 1 && o == Varies) || o == Done(ValueOf(f, buf[..n]), Wire(buf[n..] + tail, ending))
  {
    assert (buf + tail)[0] == buf[0];
    Halves(buf, tail, Need(f, buf));
  }

  /** A field cut short in a buffer that can grow no more is cut short in the flat reading. */
  lemma FieldShort(limit: nat, buf: bytes, w: Wire, f: Field)
    requires buf <= w.bytes && Need(f, buf) > |buf|
    requires |buf| <= limit ==> w.bytes == buf
    ensures var o := FieldOf(limit, w, f);
            (|buf| > limit && o == Varies) || o == Failed(Shortfall(limit, Wire(buf, w.ending)))
  {
  }

  /** A field wanted when there are no more bytes: an error if the source ends on a chunk, and if
      not a wait comes first. */
  ghost predicate Starved(r: Poll<Result<nat>>, w: Wire, before: Source, after: Source) {
    match r
    case NotReady => EndsOnChunk(after, false) == EndsOnChunk(before, true)
    case Ready(_) => w.ending.Eof? ==> EndsOnChunk(before, true)
  }

  /** The field, if all of it is in the buffer. */
  method GetBuffered(sb: StreamBuf, f: Field) returns (v: Option<nat>)
    requires sb.Valid()
    modifies sb
    ensures v.None? ==> sb.Kept() && sb.buf == old(sb.buf) && Need(f, sb.buf) > |sb.buf|
    ensures sb.source == old(sb.source)
    ensures v.Some? ==>
              && sb.Valid() && sb.Measure() < old(sb.Measure())
              && sb.Settled(Ok(v.value), FieldOf(sb.maxBufSize, old(sb.Flat()), f))
              && sb.Sound(Ok(v.value), FieldOf(sb.size, old(sb.Flat()), f))
  {
    hide FieldOf, ValueOf, Data, AllData, Closing, Weight, TrailOf;
    var got := Get(f, sb.buf);
    if got.None? { return None; }
    FieldBuffered(sb.maxBufSize, sb.buf, Data(sb.source), Closing(sb.source), f);
    FieldBuffered(sb.size, sb.buf, Data(sb.source), Closing(sb.source), f);
    sb.Advance(got.value.1);
    return Some(got.value.0);
  }

  lemma NeedMore(f: Field, buf: bytes, all: bytes)
    requires buf <= all && Need(f, buf) > |buf|
    ensures Need(f, all) <= |all| ==> |buf| < |all|
  {
    if |buf| == |all| { assert buf == all; }
  }

  /** More of a field that is not all in the buffer: a chunk, a wait, or the error of the field. */
  method FillField(sb: StreamBuf, f: Field) returns (p: Poll<Result<()>>)
    requires sb.Valid() && Need(f, sb.buf) > |sb.buf|
    modifies sb
    ensures sb.Kept()
    ensures sb.Paced(p.NotReady?, p.Ready? && p.value.Err? && |old(sb.Flat()).bytes| <= sb.maxBufSize && old(sb.Flat()).ending.Broken?)
    ensures p.NotReady? ==> sb.Waited()
    ensures p.Ready? && p.value.Ok? ==> sb.Measure() < old(sb.Measure()) && sb.Flat() == old(sb.Flat())
    ensures p.Ready? && p.value.Err? ==>
              && sb.Settled<nat>(Err(p.value.error), FieldOf(sb.maxBufSize, old(sb.Flat()), f))
              && sb.Sound<nat>(Err(p.value.error), FieldOf(sb.size, old(sb.Flat()), f))
    ensures Need(f, old(sb.Flat()).bytes) <= |old(sb.Flat()).bytes| ==> sb.Trail() == old(sb.Trail())
    ensures old(sb.Flat()).bytes == [] ==>
              match p
              case NotReady => EndsOnChunk(sb.source, false) == old(EndsOnChunk(sb.source, true))
              case Ready(Ok(_)) => EndsOnChunk(sb.source, true) == old(EndsOnChunk(sb.source, true))
              case Ready(Err(_)) => old(sb.Flat()).ending.Eof? ==> old(EndsOnChunk(sb.source, true))
  {
    hide FieldOf, ValueOf, Data, AllData, Closing, Weight, TrailOf, EndsOnChunk, Dense, ChunksAtMost, Waits, Faults;
    ghost var before := sb.buf;
    NeedMore(f, sb.buf, sb.Flat().bytes);
    p := sb.PollFillBuf();
    if p.Ready? && p.value.Err? {
      FieldShort(sb.maxBufSize, before, old(sb.Flat()), f);
      if |before| <= sb.maxBufSize {
        FieldShort(sb.size, before, old(sb.Flat()), f);
      }
    }
  }

  /** Fills the buffer until the field is all there, and reads it off the front. */
  method PollWithOctets(sb: StreamBuf, f: Field) returns (r: Poll<Result<nat>>)
    requires sb.Valid()
    modifies sb
    ensures sb.Valid() && sb.Measure() <= old(sb.Measure())
    ensures r.NotReady? ==> sb.Waited()
    ensures r.Ready? ==> sb.Settled(r.value, FieldOf(sb.maxBufSize, old(sb.Flat()), f))
    ensures r.Ready? ==> sb.Sound(r.value, FieldOf(sb.size, old(sb.Flat()), f))
    ensures r.Ready? && r.value.Ok? ==> sb.Measure() < old(sb.Measure())
    ensures Need(f, old(sb.Flat()).bytes) <= |old(sb.Flat()).bytes| ==> sb.Trail() == old(sb.Trail())
    ensures sb.Paced(r.NotReady?, r.Ready? && r.value.Err? && |old(sb.Flat()).bytes| <= sb.maxBufSize && old(sb.Flat()).ending.Broken?)
    ensures old(sb.Flat()).bytes == [] ==> Starved(r, old(sb.Flat()), old(sb.source), sb.source)
  {
    hide FieldOf, Need, Data, AllData, Closing, Weight, TrailOf, EndsOnChunk, Waits, Faults;
    while true
      invariant sb.Paced(false, false)
      invariant sb.Kept() && sb.Flat() == old(sb.Flat())
      invariant Need(f, old(sb.Flat()).bytes) <= |old(sb.Flat()).bytes| ==> sb.Trail() == old(sb.Trail())
      invariant old(sb.Flat()).bytes == [] ==> EndsOnChunk(sb.source, true) == old(EndsOnChunk(sb.source, true))
      decreases sb.Measure()
    {
      var got := GetBuffered(sb, f);
      if got.Some? {
        return Ready(Ok(got.value));
      }
      var p := FillField(sb, f);
      if p.NotReady? {
        return NotReady;
      }
      if p.value.Err? {
        return Ready(Err(p.value.error));
      }
    }
  }

  method Decode(sb: StreamBuf, f: Field) returns (r: Result<nat>)
    requires sb.Valid()
    modifies sb
    ensures sb.Valid() && sb.Measure() <= old(sb.Measure())
    ensures sb.Settled(r, FieldOf(sb.maxBufSize, old(sb.Flat()), f))
    ensures sb.Sound(r, FieldOf(sb.size, old(sb.Flat()), f))
    ensures r.Ok? ==> sb.Trail() == old(sb.Trail()) && sb.Measure() < old(sb.Measure())
  {
    var p := PollWithOctets(sb, f);
    while p.NotReady?
      invariant sb.Valid() && sb.Measure() <= old(sb.Measure())
      invariant p.NotReady? ==> sb.Flat() == old(sb.Flat())
      invariant p.Ready? ==> sb.Settled(p.value, FieldOf(sb.maxBufSize, old(sb.Flat()), f))
      invariant p.Ready? ==> sb.Sound(p.value, FieldOf(sb.size, old(sb.Flat()), f))
      invariant Need(f, old(sb.Flat()).bytes) <= |old(sb.Flat()).bytes| ==> sb.Trail() == old(sb.Trail())
      invariant p.Ready? && p.value.Ok? ==> sb.Measure() < old(sb.Measure())
      decreases sb.Measure(), p.NotReady?
    {
      p := PollWithOctets(sb, f);
    }
    return p.value;
  }

  method ReadWithVarintLength(sb: StreamBuf) returns (r: Result<bytes>)
    requires sb.Valid()
    modifies sb
    ensures sb.Valid() && sb.Measure() <= old(sb.Measure())
    ensures sb.Settled(r, LenPrefixed(sb.maxBufSize, old(sb.Flat())))
    ensures sb.Sound(r, LenPrefixed(sb.size, old(sb.Flat())))
    ensures r.Ok? ==> sb.Trail() == old(sb.Trail()) && sb.Measure() < old(sb.Measure())
  {
    var len := Decode(sb, VarInt);
    if len.Err? {
      return Err(len.error);
    }
    r := sb.ReadExact(len.value);
  }
}
