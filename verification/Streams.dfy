/**
  Input and output streams, and the read and write helpers of `src/file_io.cpp`. An input stream
  delivers `rest` and then reports either its end or, when `broken`, a read fault; an output stream
  takes `room` more bytes and then fails.
 */
module Streams {
  import opened Bytes
  import opened Errors

  /** As much of `w` as something with `room` takes. */
  function Fitting(w: bytes, room: nat): (p: bytes)
    ensures p <= w && |p| <= room
    ensures |w| <= room ==> p == w
  {
    if |w| <= room then w else w[..room]
  }

  /** All of it or, when that is too much, as many of the first bytes as there is room for. */
  lemma FittingExact(w: bytes, room: nat, p: bytes)
    ensures p == Fitting(w, room) <==> p <= w && |p| == if |w| <= room then |w| else room
  {
  }

  /** `std::istream`, with its three state bits. */
  class InputStream {
    const broken: bool

    /** How many bytes a read that meets the fault still counts at most; the others are lost. */
    const counted: nat

    var rest: bytes
    var eof: bool
    var failbit: bool
    var bad: bool

    constructor (data: bytes, broken: bool, counted: nat)
      ensures rest == data && this.broken == broken && this.counted == counted && Good()
    {
      this.broken := broken;
      this.counted := counted;
      rest := data;
      eof, failbit, bad := false, false, false;
    }

    predicate Good()
      reads this
    {
      !eof && !failbit && !bad
    }

    /** `fail()`. */
    predicate Fail()
      reads this
    {
      failbit || bad
    }

    /** `read`; the result is the `gcount()` bytes that were delivered. */
    method Read(n: nat) returns (got: bytes)
      modifies this
      ensures !old(Good()) ==> got == [] && failbit && eof == old(eof) && bad == old(bad) && rest == old(rest)
      ensures old(Good()) && n <= |old(rest)| ==> got == old(rest[..n]) && rest == old(rest[n..]) && Good()
      ensures old(Good()) && n > |old(rest)| ==>
                && (if broken then got == Fitting(old(rest), counted) else got == old(rest)) && rest == []
                && bad == broken && eof == failbit == !broken
    {
      got := [];
      if !Good() {
        failbit := true;
      } else if n <= |rest| {
        got, rest := rest[..n], rest[n..];
      } else {
        got, rest := if broken then Fitting(rest, counted) else rest, [];
        bad, eof, failbit := broken, !broken, !broken;
      }
    }

    /** `peek() == eof()`. */
    method PeekIsEof() returns (end: bool)
      modifies this
      ensures rest == old(rest)
      ensures old(Good()) ==> end == (rest == [])
      ensures old(Good()) && rest != [] ==> Good()
      ensures old(Good()) && rest == [] ==> bad == broken && eof == !broken && !failbit
      ensures !old(Good()) ==> end && failbit && eof == old(eof) && bad == old(bad)
    {
      if !Good() {
        failbit := true;
        return true;
      }
      if rest == [] {
        bad, eof := broken, !broken;
      }
      return rest == [];
    }

    /** What sealing sees: a stream that is not good delivers nothing, and its end is a fault unless `eof` is set. */
    function SealSource(): (bytes, bool)
      reads this
    {
      if Good() then (rest, broken) else ([], !eof)
    }

    /** What opening sees; unlike sealing it also treats `bad` together with `eof` as a fault. */
    function OpenSource(): (bytes, bool)
      reads this
    {
      if Good() then (rest, broken) else ([], bad || !eof)
    }
  }

  /** `std::ostream`, or the file behind an `OutputFile`. */
  class OutputStream {
    var written: bytes
    var room: nat
    var bad: bool

    constructor (room: nat)
      ensures written == [] && this.room == room && !bad
    {
      written := [];
      this.room := room;
      bad := false;
    }

    /** How many more bytes can still arrive. */
    function Room(): (n: nat)
      reads this
    {
      if bad then 0 else room
    }

    /** `write_all`. */
    method WriteAll(data: bytes) returns (r: Outcome)
      modifies this
      ensures r == if !old(bad) && |data| <= old(room) then Done else Thrown(BackendFailure)
      ensures written == old(written) + Fitting(data, old(Room()))
      ensures r.Done? ==> !bad && room == old(room) - |data|
      ensures r.Thrown? ==> bad
    {
      if bad {
        return Thrown(BackendFailure);
      }
      if |data| <= room {
        written, room := written + data, room - |data|;
        return Done;
      }
      written, room, bad := written + data[..room], 0, true;
      return Thrown(BackendFailure);
    }
  }

  /** `read_exact`: `None` where the source returns `false`. */
  method ReadExact(input: InputStream, n: nat) returns (r: Result<Option<bytes>>)
    modifies input
    ensures var (data, faulty) := old(input.OpenSource());
            r == if n <= |data| then Ok(Some(data[..n]))
                 else if faulty then Err(BackendFailure)
                 else Ok(None)
    ensures old(input.Good()) && r.Ok? && r.value.Some? ==> input.Good() && input.rest == old(input.rest)[n..]
  {
    var got := input.Read(n);
    if |got| == n {
      return Ok(Some(got));
    }
    if input.bad || (!input.eof && input.Fail()) {
      return Err(BackendFailure);
    }
    return Ok(None);
  }

  /** `reject_trailing_data`. */
  method RejectTrailingData(input: InputStream) returns (r: Outcome)
    modifies input
    ensures var (data, faulty) := old(input.OpenSource());
            r == if data != [] then Thrown(InvalidPacket)
                 else if faulty then Thrown(BackendFailure)
                 else Done
  {
    var got := input.Read(1);
    if |got| != 0 {
      return Thrown(InvalidPacket);
    }
    if input.bad || (!input.eof && input.Fail()) {
      return Thrown(BackendFailure);
    }
    return Done;
  }
}
