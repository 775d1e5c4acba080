// The operating system as the player meets it. Every answer it will give is written
// down in advance in a script; nothing is assumed about a script's contents, so a
// statement about all scripts is a statement about every behaviour of the system.
// A call made after its script has run out fails with EIO.
module Kernel {
  import opened Bytes

  const EINTR := 4
  const EIO := 5
  const EAGAIN := 11
  const EINVAL := 22
  const EPIPE := 32
  const ESTRPIPE := 86

  // read(2): a failure with its errno, or a transfer of at most n bytes.
  datatype ReadAnswer = Failed(errno: nat) | Transferred(n: nat)

  // poll(2): a failure, a timeout, or a descriptor with POLLIN and POLLHUP set as given;
  // with neither of them the event is an error condition.
  datatype PollAnswer = PollFailed(errno: nat) | TimedOut | Events(readable: bool, hungUp: bool)

  // A descriptor open for reading: the bytes not read yet and the answers to come.
  datatype Source = Source(file: seq<byte>, readScript: seq<ReadAnswer>, pollScript: seq<PollAnswer>) {
    function NextRead(): (ReadAnswer, Source) {
      if readScript == [] then (Failed(EIO), this) else (readScript[0], this.(readScript := readScript[1..]))
    }

    function NextPoll(): (PollAnswer, Source) {
      if pollScript == [] then (PollFailed(EIO), this) else (pollScript[0], this.(pollScript := pollScript[1..]))
    }

    // A read that succeeds transfers something unless the end of the file is reached.
    function Transfer(n: nat, want: nat): (count: nat)
      requires want > 0
      ensures count <= |file| && count <= want
      ensures count == 0 <==> file == []
    {
      if file == [] then 0 else Min(if n == 0 then 1 else n, Min(want, |file|))
    }

    function Advance(count: nat): Source
      requires count <= |file|
    {
      this.(file := file[count..])
    }
  }

  // LAST_IO_ERROR: errno, or EIO when errno is not set.
  function IoError(errno: nat): (error: int)
    ensures error > 0
  {
    if errno != 0 then errno else EIO
  }

  class Descriptor {
    var state: Source

    constructor (state: Source)
      ensures this.state == state
    {
      this.state := state;
    }

    method Read(dest: array<byte>, at: nat, size: nat) returns (answer: ReadAnswer)
      requires size > 0 && at + size <= dest.Length
      modifies this, dest
      ensures dest[..at] == old(dest[..at])
      ensures var (a, rest) := old(state).NextRead();
        match a
        case Failed(_) => answer == a && state == rest
        case Transferred(n) =>
          var count := rest.Transfer(n, size);
          && answer == Transferred(count) && state == rest.Advance(count)
          && dest[at..at + count] == old(state).file[..count]
    {
      var (a, rest) := state.NextRead();
      match a {
        case Failed(_) =>
          answer := a;
          state := rest;
        case Transferred(n) =>
          var count := rest.Transfer(n, size);
          forall k | 0 <= k < count {
            dest[at + k] := rest.file[k];
          }
          answer := Transferred(count);
          state := rest.Advance(count);
      }
    }

    method Poll() returns (answer: PollAnswer)
      modifies this
      ensures (answer, state) == old(state).NextPoll()
    {
      var (a, rest) := state.NextPoll();
      answer := a;
      state := rest;
    }
  }
}
