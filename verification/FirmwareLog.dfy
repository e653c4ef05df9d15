/** The firmware debug log: a ring of bytes that the firmware appends to and the host reads from. */
module FirmwareLog {
  import opened Bits
  import opened Cyclic
  import opened Mmio
  import opened Resources
  import opened Results

  const HEADER_SIZE: nat := 8
  const DATA_SIZE: nat := 4088
  const TOTAL_SIZE: nat := 4096
  const MAX_BUFFER: nat := 512

  /** calculate_log_ready_to_read. */
  function Ready(host: nat, chip: nat): (r: nat)
    requires host < DATA_SIZE && chip < DATA_SIZE
    ensures r < DATA_SIZE && Wrap(host + r, DATA_SIZE) == chip
  {
    if chip >= host then chip - host else DATA_SIZE - (host - chip)
  }

  lemma WindowStraight(data: seq<Byte>, host: nat, n: nat)
    requires |data| == DATA_SIZE && host + n <= DATA_SIZE && host < DATA_SIZE
    ensures Window(data, host, n) == data[host..host + n]
  {
    hide Window;
    forall i | 0 <= i < n ensures Window(data, host, n)[i] == data[host..host + n][i] {
      WindowAt(data, host, n, i);
    }
  }

  lemma WindowAround(data: seq<Byte>, host: nat, n: nat)
    requires |data| == DATA_SIZE && host < DATA_SIZE <= host + n && n <= DATA_SIZE
    ensures Window(data, host, n) == data[host..] + data[..host + n - DATA_SIZE]
  {
    hide Window;
    forall i | 0 <= i < n ensures Window(data, host, n)[i] == (data[host..] + data[..host + n - DATA_SIZE])[i] {
      WindowAt(data, host, n, i);
    }
  }

  /** What a read does to the log: the ready bytes up to the buffer size are taken, in order and going around, the host
      offset is advanced by as many, and the rest of the region is as it was. */
  ghost predicate DidRead(before: seq<Byte>, bufferSize: nat, after: seq<Byte>, bytes: seq<Byte>)
    requires |before| == |after| == TOTAL_SIZE && Word(before, 0) < DATA_SIZE && Word(before, 4) < DATA_SIZE
  {
    var host, chip := Word(before, 0), Word(before, 4);
    && |bytes| == Min(Ready(host, chip), bufferSize)
    && bytes == Window(before[HEADER_SIZE..], host, |bytes|)
    && Word(after, 0) == (host + |bytes|) % DATA_SIZE
    && after[4..] == before[4..]
  }

  /** hailo_read_firmware_log over a region holding the header (host offset, chip offset) and the data. */
  method ReadFirmwareLog(log: Region, bufferSize: nat, bufferAddr: nat) returns (ret: int, bytes: seq<Byte>)
    requires log.linkUp && log.base == 0 && log.Backed(0, TOTAL_SIZE) && |log.backing| == TOTAL_SIZE
    requires Word(log.backing, 0) < DATA_SIZE && Word(log.backing, 4) < DATA_SIZE
    modifies log`backing
    ensures |log.backing| == TOTAL_SIZE
    ensures bufferSize > MAX_BUFFER ==> ret == EINVAL && bytes == [] && log.backing == old(log.backing)
    ensures bufferSize <= MAX_BUFFER ==>
              ret == 0 && DidRead(old(log.backing), bufferSize, log.backing, bytes)
  {
    hide Word, WordBytes, Region.Seen;
    if bufferSize > MAX_BUFFER {
      return EINVAL, [];
    }
    var header := log.ReadBuffer(0, HEADER_SIZE, 0);
    HeaderWords(log.backing, header);
    var host, chip := Word(header, 0), Word(header, 4);
    var ready := Ready(host, chip);
    if ready == 0 {
      return 0, [];
    }
    ready := Min(ready, bufferSize);
    bytes := ReadAround(log, host, ready, bufferAddr);
    assert |bytes| == ready;
    var next := Wrap(host + ready, DATA_SIZE);
    log.IoWrite32(0, next);
    HostWritten(old(log.backing), next);
    return 0, bytes;
  }

  /** The one or two reads of the data: up to the end of the buffer, then from its beginning. */
  method ReadAround(log: Region, host: nat, ready: nat, bufferAddr: nat) returns (bytes: seq<Byte>)
    requires log.linkUp && log.base == 0 && log.Backed(0, TOTAL_SIZE) && |log.backing| == TOTAL_SIZE
    requires host < DATA_SIZE && ready < DATA_SIZE
    ensures bytes == Window(log.backing[HEADER_SIZE..], host, ready)
  {
    hide Region.Seen, Window;
    ghost var data := log.backing[HEADER_SIZE..];
    var readOffset, user, size := HEADER_SIZE + host, bufferAddr, ready;
    bytes := [];
    if DATA_SIZE <= host + ready {
      size := DATA_SIZE - host;
      bytes := log.ReadBuffer(readOffset, size, user);
      Behind(log.backing, host, size);
      assert bytes == data[host..];
      user := user + size;
      size := ready - size;
      readOffset := HEADER_SIZE;
      WindowAround(data, host, ready);
    } else {
      WindowStraight(data, host, ready);
    }
    var rest := log.ReadBuffer(readOffset, size, user);
    Behind(log.backing, readOffset - HEADER_SIZE, size);
    assert rest == data[readOffset - HEADER_SIZE..readOffset - HEADER_SIZE + size];
    bytes := bytes + rest;
  }

  lemma Behind(backing: seq<Byte>, at: nat, size: nat)
    requires |backing| == TOTAL_SIZE && HEADER_SIZE + at + size <= |backing|
    ensures backing[HEADER_SIZE..][at..at + size] == backing[HEADER_SIZE + at..HEADER_SIZE + at + size]
  {
  }

  lemma HeaderWords(backing: seq<Byte>, header: seq<Byte>)
    requires |backing| == TOTAL_SIZE && header == backing[0..HEADER_SIZE]
    ensures Word(header, 0) == Word(backing, 0) && Word(header, 4) == Word(backing, 4)
  {
  }

  lemma HostWritten(backing: seq<Byte>, next: nat)
    requires |backing| == TOTAL_SIZE && next < DATA_SIZE
    ensures var after := Splice(backing, 0, WordBytes(next)); Word(after, 0) == next && after[4..] == backing[4..]
  {
    assert next / 256 / 256 == 0 && next / 256 / 256 / 256 == 0;
  }

  // ----- the stream -----

  /** The ring with its history: everything the firmware appended, everything the host was given. `reading` is the
      number of bytes a host read has found ready and not yet taken. */
  datatype Log = Log(host: nat, chip: nat, data: seq<Byte>, written: seq<Byte>, read: seq<Byte>, reading: nat)

  datatype Step =
    | Append(bytes: seq<Byte>)
    | BeginRead(bufferSize: nat)
    | EndRead

  predicate Shaped(g: Log) {
    |g.data| == DATA_SIZE && g.host < DATA_SIZE && g.chip < DATA_SIZE
  }

  /** The firmware never overruns what the host has not taken; reads fit the host's buffer. */
  predicate CanStep(g: Log, s: Step) {
    Shaped(g) &&
    match s
    case Append(bytes) => Ready(g.host, g.chip) + |bytes| < DATA_SIZE
    case BeginRead(size) => size <= MAX_BUFFER
    case EndRead => g.reading < DATA_SIZE
  }

  function Next(g: Log, s: Step): Log
    requires CanStep(g, s)
  {
    match s
    case Append(bytes) =>
      g.(chip := Wrap(g.chip + |bytes|, DATA_SIZE), data := WriteAt(g.data, g.chip, bytes),
         written := g.written + bytes)
    case BeginRead(size) => g.(reading := Min(Ready(g.host, g.chip), size))
    case EndRead =>
      g.(host := Wrap(g.host + g.reading, DATA_SIZE), read := g.read + Window(g.data, g.host, g.reading), reading := 0)
  }

  /** The log as it stands in a region. */
  ghost predicate InRegion(g: Log, backing: seq<Byte>) {
    && |backing| == TOTAL_SIZE
    && g.host == Word(backing, 0) && g.chip == Word(backing, 4) && g.data == backing[HEADER_SIZE..]
  }

  /** A call of hailo_read_firmware_log is the two read steps, one after the other: it hands out what they do, and
      leaves the region as they leave the log. */
  lemma ReadIsTwoSteps(g: Log, before: seq<Byte>, bufferSize: nat, after: seq<Byte>, bytes: seq<Byte>)
    requires Shaped(g) && InRegion(g, before) && |after| == TOTAL_SIZE && bufferSize <= MAX_BUFFER
    requires DidRead(before, bufferSize, after, bytes)
    ensures CanStep(g, BeginRead(bufferSize)) && CanStep(Next(g, BeginRead(bufferSize)), EndRead)
    ensures var g' := Next(Next(g, BeginRead(bufferSize)), EndRead);
            && g'.read == g.read + bytes
            && InRegion(g', after)
  {
    hide Window, FromBytes;
    assert after[HEADER_SIZE..] == after[4..][4..] && before[HEADER_SIZE..] == before[4..][4..];
    ChipKept(before, after);
  }

  lemma ChipKept(before: seq<Byte>, after: seq<Byte>)
    requires |before| == |after| == TOTAL_SIZE && after[4..] == before[4..]
    ensures Word(after, 4) == Word(before, 4)
  {
    hide FromBytes;
    assert forall i | 4 <= i < 8 :: after[i] == after[4..][i - 4] == before[4..][i - 4] == before[i];
  }

  /** What is in the ring is what was written and not yet read. */
  ghost predicate Inv(g: Log) {
    && Shaped(g)
    && g.reading <= Ready(g.host, g.chip)
    && g.written == g.read + Window(g.data, g.host, Ready(g.host, g.chip))
  }

  lemma AppendKeeps(g: Log, bytes: seq<Byte>)
    requires Inv(g) && CanStep(g, Append(bytes))
    ensures Inv(Next(g, Append(bytes)))
  {
    var g' := Next(g, Append(bytes));
    var n, n' := Ready(g.host, g.chip), Ready(g'.host, g'.chip);
    assert n' == n + |bytes|;
    var before, after := Window(g.data, g.host, n), Window(g'.data, g.host, n');
    forall i | 0 <= i < n' ensures after[i] == (before + bytes)[i] {
      var j := Wrap(g.host + i, DATA_SIZE);
      assert after[i] == g'.data[j];
    }
    assert g.read + before + bytes == g.read + (before + bytes);
  }

  lemma EndReadKeeps(g: Log)
    requires Inv(g) && CanStep(g, EndRead)
    ensures Inv(Next(g, EndRead))
  {
    hide Window;
    var g' := Next(g, EndRead);
    var n, n' := Ready(g.host, g.chip), Ready(g'.host, g'.chip);
    assert n == g.reading + n';
    var all, taken, left := Window(g.data, g.host, n), Window(g.data, g.host, g.reading), Window(g.data, g'.host, n');
    forall i | 0 <= i < n ensures all[i] == (taken + left)[i] {
      WindowAt(g.data, g.host, n, i);
      if i < g.reading {
        WindowAt(g.data, g.host, g.reading, i);
      } else {
        WindowAt(g.data, g'.host, n', i - g.reading);
      }
    }
    assert g.read + taken + left == g.read + (taken + left);
  }

  ghost predicate Run(g: Log, steps: seq<Step>, g': Log)
    decreases |steps|
  {
    if steps == [] then g' == g else CanStep(g, steps[0]) && Run(Next(g, steps[0]), steps[1..], g')
  }

  lemma {:induction false} RunKeeps(g: Log, steps: seq<Step>, g': Log)
    requires Inv(g) && Run(g, steps, g')
    ensures Inv(g')
    decreases |steps|
  {
    hide WriteAt, Window;
    if steps != [] {
      match steps[0] {
        case Append(bytes) => AppendKeeps(g, bytes);
        case BeginRead(size) =>
        case EndRead => EndReadKeeps(g);
      }
      RunKeeps(Next(g, steps[0]), steps[1..], g');
    }
  }

  /** For every interleaving of appends and reads, and wherever the ring starts, the bytes the host has been given
      are a prefix of the bytes the firmware wrote, and the rest is still in the ring. */
  lemma LogStream(start: nat, data: seq<Byte>, steps: seq<Step>, g: Log)
    requires start < DATA_SIZE && |data| == DATA_SIZE && Run(Log(start, start, data, [], [], 0), steps, g)
    ensures g.read <= g.written
    ensures Shaped(g) && g.written == g.read + Window(g.data, g.host, Ready(g.host, g.chip))
  {
    hide Run;
    RunKeeps(Log(start, start, data, [], [], 0), steps, g);
  }
}
