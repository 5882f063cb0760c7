/**
 * The binary reader the decoder works through: a position over an in-memory
 * byte buffer, little-endian fixed-size reads that fail past the end, a
 * ReadBytes that returns what is left when fewer bytes remain, and seeks
 * relative to the start, the current position or the end, which fail only
 * when the target is negative (a target past the end is allowed).
 *
 * The spec functions work on (buffer, position) and return the value read
 * with the position after it; class Cursor holds the position as a field and
 * its methods are proved to do what those functions say.
 */
module ByteCursor {
  import opened Primitives

  /** The unsigned 16-bit little-endian value at i. */
  function U16At(data: seq<byte>, i: nat): uint16
    requires i + 2 <= |data|
  {
    data[i] as int + 0x100 * data[i + 1] as int
  }

  /** The unsigned 32-bit little-endian value at i. */
  function U32At(data: seq<byte>, i: nat): uint32
    requires i + 4 <= |data|
  {
    U16At(data, i) + 0x1_0000 * U16At(data, i + 2)
  }

  function ReadU16At(data: seq<byte>, pos: nat): Result<Parsed<uint16>, DecodeError> {
    if pos + 2 <= |data| then Ok(Parsed(U16At(data, pos), pos + 2)) else Err(EndOfStream)
  }

  /** ReadUInt32, and ReadSingle, which reads the same four bytes as raw IEEE-754 bits. */
  function ReadU32At(data: seq<byte>, pos: nat): Result<Parsed<uint32>, DecodeError> {
    if pos + 4 <= |data| then Ok(Parsed(U32At(data, pos), pos + 4)) else Err(EndOfStream)
  }

  /**
   * ReadBytes(n): up to n bytes; fewer (none at all past the end) when the
   * buffer runs out, which is not an error.
   */
  function ReadBytesAt(data: seq<byte>, pos: nat, n: nat): (r: Parsed<seq<byte>>)
    ensures |r.value| <= n && r.next == pos + |r.value|
    ensures pos + n <= |data| ==> r.value == data[pos..pos + n]
    ensures pos < |data| < pos + n ==> r.value == data[pos..]
    ensures |data| <= pos ==> r.value == []
  {
    if |data| <= pos then Parsed([], pos)
    else if pos + n <= |data| then Parsed(data[pos..pos + n], pos + n)
    else Parsed(data[pos..], |data|)
  }

  /** The two origins the decoder seeks from. */
  datatype SeekOrigin = Current | End

  /** A MemoryStream position is an int. */
  const MAX_POSITION := 0x7FFF_FFFF

  /**
   * MemoryStream.Seek. The target is first checked in 64 bits, and a
   * negative one fails. The new position is then computed as an int: for
   * the decoder's offsets (a u16 forward from a position, or back from the
   * end) a target past int.MaxValue wraps to a negative int, which fails
   * with the same error.
   */
  function SeekAt(len: nat, pos: nat, offset: int, origin: SeekOrigin): (r: Result<nat, DecodeError>)
    ensures var target := (match origin case Current => pos case End => len) + offset;
            && (target < 0 || MAX_POSITION < target ==> r == Err(SeekBeforeBegin))
            && (0 <= target <= MAX_POSITION ==> r == Ok(target))
  {
    var base := match origin case Current => pos case End => len;
    if base + offset < 0 || MAX_POSITION < base + offset then Err(SeekBeforeBegin) else Ok(base + offset)
  }

  /** The value a read hands its caller. */
  function Returned<T>(r: Result<Parsed<T>, DecodeError>): Result<T, DecodeError> {
    match r
    case Ok(p) => Ok(p.value)
    case Err(e) => Err(e)
  }

  /** The position after a read; a failed read aborts the decode, and the model leaves the position alone. */
  function PositionAfter<T>(r: Result<Parsed<T>, DecodeError>, pos: nat): nat {
    match r
    case Ok(p) => p.next
    case Err(_) => pos
  }

  /**
   * A counted loop of reads: `count` more records, each read by `read` from
   * where the previous one ended, appended to `done`. The first failure
   * ends the loop with that failure.
   */
  function Repeat<T>(read: nat -> Result<Parsed<T>, DecodeError>, pos: nat, count: nat, done: seq<T>): Result<Parsed<seq<T>>, DecodeError>
    decreases count
  {
    if count == 0 then Ok(Parsed(done, pos))
    else
      var item :- read(pos);
      Repeat(read, item.next, count - 1, done + [item.value])
  }

  /** A finished loop has read exactly `count` records after those in `done`. */
  lemma {:induction false} RepeatCount<T>(read: nat -> Result<Parsed<T>, DecodeError>, pos: nat, count: nat, done: seq<T>)
    ensures var r := Repeat(read, pos, count, done);
            r.Ok? ==> |r.value.value| == |done| + count && r.value.value[..|done|] == done
    decreases count
  {
    if count > 0 {
      var item := read(pos);
      if item.Ok? {
        var done' := done + [item.value.value];
        RepeatCount(read, item.value.next, count - 1, done');
        var r := Repeat(read, item.value.next, count - 1, done');
        if r.Ok? {
          assert r.value.value[..|done|] == r.value.value[..|done'|][..|done|];
        }
      }
    }
  }

  /** When every single read can fail only with an error in `errors`, so can the loop. */
  lemma {:induction false} RepeatFailsWith<T>(read: nat -> Result<Parsed<T>, DecodeError>, errors: set<DecodeError>, pos: nat, count: nat, done: seq<T>)
    requires forall p :: read(p).Err? ==> read(p).error in errors
    ensures var r := Repeat(read, pos, count, done);
            r.Err? ==> r.error in errors
    decreases count
  {
    if count > 0 {
      var item := read(pos);
      if item.Ok? {
        RepeatFailsWith(read, errors, item.value.next, count - 1, done + [item.value.value]);
      }
    }
  }

  /** A property every single read gives its record holds of every record the loop collects. */
  lemma {:induction false} RepeatKeeps<T>(read: nat -> Result<Parsed<T>, DecodeError>, ok: T -> bool, pos: nat, count: nat, done: seq<T>)
    requires forall p :: read(p).Ok? ==> ok(read(p).value.value)
    requires forall i :: 0 <= i < |done| ==> ok(done[i])
    ensures var r := Repeat(read, pos, count, done);
            r.Ok? ==> forall i :: 0 <= i < |r.value.value| ==> ok(r.value.value[i])
    decreases count
  {
    if count > 0 {
      var item := read(pos);
      if item.Ok? {
        var done' := done + [item.value.value];
        forall i | 0 <= i < |done'|
          ensures ok(done'[i])
        {
          if i < |done| { assert done'[i] == done[i]; }
        }
        RepeatKeeps(read, ok, item.value.next, count - 1, done');
      }
    }
  }

  /**
   * A reader of fixed-size records in a buffer of `len` bytes: it succeeds
   * exactly when `width` bytes remain, ends right after them, and otherwise
   * fails with `e`.
   */
  ghost predicate FixedWidth<T>(read: nat -> Result<Parsed<T>, DecodeError>, width: nat, len: nat, e: DecodeError) {
    forall p: nat ::
      && (read(p).Ok? <==> p + width <= len)
      && (read(p).Ok? ==> read(p).value.next == p + width)
      && (read(p).Err? ==> read(p).error == e)
  }

  /** Fixed-size records fit exactly when `count` whole records remain, and the loop ends after them. */
  lemma {:induction false} RepeatFixed<T>(read: nat -> Result<Parsed<T>, DecodeError>, width: nat, len: nat, e: DecodeError, pos: nat, count: nat, done: seq<T>)
    requires FixedWidth(read, width, len, e)
    ensures var r := Repeat(read, pos, count, done);
            && (r.Ok? <==> count == 0 || pos + width * count <= len)
            && (r.Ok? ==> r.value.next == pos + width * count)
            && (r.Err? ==> r.error == e)
    decreases count
  {
    if count > 0 {
      assert width * count == width + width * (count - 1);
      var item := read(pos);
      if item.Ok? {
        RepeatFixed(read, width, len, e, pos + width, count - 1, done + [item.value.value]);
      }
    }
  }

  /** Record i of a finished loop is the record read i widths after the start. */
  lemma {:induction false} RepeatFixedAt<T>(read: nat -> Result<Parsed<T>, DecodeError>, width: nat, len: nat, e: DecodeError, pos: nat, count: nat, done: seq<T>)
    requires FixedWidth(read, width, len, e)
    ensures var r := Repeat(read, pos, count, done);
            r.Ok? ==> forall i :: 0 <= i < count ==>
                        |done| + i < |r.value.value|
                        && read(pos + width * i) == Ok(Parsed(r.value.value[|done| + i], pos + width * i + width))
    decreases count
  {
    var r := Repeat(read, pos, count, done);
    if count > 0 && r.Ok? {
      var item := read(pos);
      var done' := done + [item.value.value];
      RepeatCount(read, pos, count, done);
      RepeatCount(read, pos + width, count - 1, done');
      RepeatFixedAt(read, width, len, e, pos + width, count - 1, done');
      var out := r.value.value;
      assert out[|done|] == out[..|done'|][|done|] == done'[|done|];
      forall i | 0 < i < count
        ensures read(pos + width * i) == Ok(Parsed(out[|done| + i], pos + width * i + width))
      {
        assert pos + width + width * (i - 1) == pos + width * i;
      }
    }
  }

  /** Records that are each the one read at their place are exactly what the loop reads. */
  lemma {:induction false} RepeatFixedExact<T>(read: nat -> Result<Parsed<T>, DecodeError>, width: nat, pos: nat, items: seq<T>, done: seq<T>)
    requires forall i :: 0 <= i < |items| ==> read(pos + width * i) == Ok(Parsed(items[i], pos + width * i + width))
    ensures Repeat(read, pos, |items|, done) == Ok(Parsed(done + items, pos + width * |items|))
    decreases |items|
  {
    if items == [] {
      assert done + items == done;
    } else {
      var rest := items[1..];
      forall i | 0 <= i < |rest|
        ensures read(pos + width + width * i) == Ok(Parsed(rest[i], pos + width + width * i + width))
      {
        assert pos + width + width * i == pos + width * (i + 1);
      }
      assert read(pos + width * 0) == Ok(Parsed(items[0], pos + width));
      RepeatFixedExact(read, width, pos + width, rest, done + [items[0]]);
      assert done + [items[0]] + rest == done + items;
      assert pos + width + width * |rest| == pos + width * |items|;
    }
  }

  class Cursor {
    const data: seq<byte>
    var pos: nat

    constructor (content: seq<byte>)
      ensures data == content && pos == 0
    {
      data := content;
      pos := 0;
    }

    method ReadUInt16() returns (r: Result<uint16, DecodeError>)
      modifies this
      ensures r == Returned(ReadU16At(data, old(pos)))
      ensures pos == PositionAfter(ReadU16At(data, old(pos)), old(pos))
    {
      if pos + 2 <= |data| {
        r := Ok(data[pos] as int + 0x100 * data[pos + 1] as int);
        pos := pos + 2;
      } else {
        r := Err(EndOfStream);
      }
    }

    method ReadUInt32() returns (r: Result<uint32, DecodeError>)
      modifies this
      ensures r == Returned(ReadU32At(data, old(pos)))
      ensures pos == PositionAfter(ReadU32At(data, old(pos)), old(pos))
    {
      if pos + 4 <= |data| {
        r := Ok(U32At(data, pos));
        pos := pos + 4;
      } else {
        r := Err(EndOfStream);
      }
    }

    method ReadBytes(n: nat) returns (bytes: seq<byte>)
      modifies this
      ensures Parsed(bytes, pos) == ReadBytesAt(data, old(pos), n)
    {
      if |data| <= pos {
        bytes := [];
      } else if pos + n <= |data| {
        bytes := data[pos..pos + n];
        pos := pos + n;
      } else {
        bytes := data[pos..];
        pos := |data|;
      }
    }

    method Seek(offset: int, origin: SeekOrigin) returns (r: Result<nat, DecodeError>)
      modifies this
      ensures r == SeekAt(|data|, old(pos), offset, origin)
      ensures pos == if r.Ok? then r.value else old(pos)
    {
      var target := match origin case Current => pos + offset case End => |data| + offset;
      if target < 0 || MAX_POSITION < target {
        r := Err(SeekBeforeBegin);
      } else {
        r := Ok(target);
        pos := target;
      }
    }
  }
}
