/** Firmware images: the validation that consumes an image piece by piece, and the format it accepts. */
module FirmwareImage {
  import opened Bits
  import opened Mmio
  import opened Results

  const FW_HEADER_SIZE: nat := 24
  const CERT_HEADER_SIZE: nat := 8
  const MINIMUM_CODE_SIZE: nat := 80
  const MAXIMUM_APP_CODE_SIZE: nat := 0x40000
  const MAXIMUM_CORE_CODE_SIZE: nat := 0x20000
  const MAXIMUM_CERT_KEY_SIZE: nat := 0x1000
  const MAXIMUM_CERT_CONTENT_SIZE: nat := 0x1000
  const HEADER_VERSION_INITIAL: nat := 0

  datatype Board = Hailo8 | Hailo15 | Hailo15L | Hailo10H | Hailo10HLegacy | Mars | OtherBoard

  /** The magic number of the board's images, if it has any. */
  function Magic(board: Board): Option<nat> {
    match board
    case Hailo8 => Some(0x1DD8_9DE0)
    case Hailo10HLegacy | Hailo15 | Hailo10H => Some(0xE905_DAAB)
    case Hailo15L => Some(0xF947_39AB)
    case Mars => Some(0xF947_39AB)
    case OtherBoard => None
  }

  // ----- the checks -----

  /** A firmware at `at`: header and code lie in the image and the header is acceptable. */
  predicate FwAt(image: seq<Byte>, at: nat, maxCode: nat, board: Board) {
    && at + FW_HEADER_SIZE <= |image|
    && Magic(board) == Some(Word(image, at))
    && Word(image, at + 4) == HEADER_VERSION_INITIAL
    && MINIMUM_CODE_SIZE <= Word(image, at + 20) <= maxCode
    && at + FW_HEADER_SIZE + Word(image, at + 20) <= |image|
  }

  function FwEnd(image: seq<Byte>, at: nat): nat
    requires at + FW_HEADER_SIZE <= |image|
  {
    at + FW_HEADER_SIZE + Word(image, at + 20)
  }

  predicate CertAt(image: seq<Byte>, at: nat) {
    && at + CERT_HEADER_SIZE <= |image|
    && Word(image, at) <= MAXIMUM_CERT_KEY_SIZE
    && Word(image, at + 4) <= MAXIMUM_CERT_CONTENT_SIZE
    && at + CERT_HEADER_SIZE + Word(image, at) + Word(image, at + 4) <= |image|
  }

  function CertEnd(image: seq<Byte>, at: nat): nat
    requires at + CERT_HEADER_SIZE <= |image|
  {
    at + CERT_HEADER_SIZE + Word(image, at) + Word(image, at + 4)
  }

  /** CONSUME_FIRMWARE: the new offset, in u32, unless it passes the end of the image. */
  function Consume(consumed: nat, size: nat, total: nat): Option<nat> {
    var next := U32(consumed + size);
    if total < size || total < next then None else Some(next)
  }

  /** FW_VALIDATION__validate_fw_header: the offset behind the firmware. */
  method ValidateFwHeader(image: seq<Byte>, at: nat, maxCode: nat, board: Board) returns (end: Option<nat>)
    requires at + FW_HEADER_SIZE + maxCode < TWO_32
    ensures end.Some? <==> FwAt(image, at, maxCode, board)
    ensures end.Some? ==> end.value == FwEnd(image, at)
  {
    hide Word;
    var consumed := Consume(at, FW_HEADER_SIZE, |image|);
    if consumed.None? {
      return None;
    }
    var magic := Magic(board);
    if magic.None? {
      return None;
    }
    if magic.value != Word(image, at) {
      return None;
    }
    if Word(image, at + 4) != HEADER_VERSION_INITIAL {
      return None;
    }
    var codeSize := Word(image, at + 20);
    if MINIMUM_CODE_SIZE > codeSize {
      return None;
    }
    if maxCode < codeSize {
      return None;
    }
    end := Consume(consumed.value, codeSize, |image|);
  }

  /** FW_VALIDATION__validate_cert_header: the offset behind the certificate. */
  method ValidateCertHeader(image: seq<Byte>, at: nat) returns (end: Option<nat>)
    requires at + CERT_HEADER_SIZE + MAXIMUM_CERT_KEY_SIZE + MAXIMUM_CERT_CONTENT_SIZE < TWO_32
    ensures end.Some? <==> CertAt(image, at)
    ensures end.Some? ==> end.value == CertEnd(image, at)
  {
    hide Word;
    var consumed := Consume(at, CERT_HEADER_SIZE, |image|);
    if consumed.None? {
      return None;
    }
    var key, content := Word(image, at), Word(image, at + 4);
    if MAXIMUM_CERT_KEY_SIZE < key || MAXIMUM_CERT_CONTENT_SIZE < content {
      return None;
    }
    consumed := Consume(consumed.value, key, |image|);
    if consumed.None? {
      return None;
    }
    end := Consume(consumed.value, content, |image|);
  }

  /** Where the parts of an accepted image start. */
  datatype Layout = Layout(cert: nat, core: nat)

  predicate Accepted(image: seq<Byte>, board: Board, nnc: bool) {
    && FwAt(image, 0, MAXIMUM_APP_CODE_SIZE, board)
    && CertAt(image, FwEnd(image, 0))
    && var core := CertEnd(image, FwEnd(image, 0));
       if nnc then FwAt(image, core, MAXIMUM_CORE_CODE_SIZE, board) && FwEnd(image, core) == |image|
       else core == |image|
  }

  /** FW_VALIDATION__validate_fw_headers. */
  method ValidateFwHeaders(image: seq<Byte>, board: Board, nnc: bool) returns (layout: Option<Layout>)
    ensures layout.Some? <==> Accepted(image, board, nnc)
    ensures layout.Some? ==>
              layout.value.cert == FwEnd(image, 0) && layout.value.core == CertEnd(image, layout.value.cert)
  {
    hide Word;
    var app := ValidateFwHeader(image, 0, MAXIMUM_APP_CODE_SIZE, board);
    if app.None? {
      return None;
    }
    var cert := ValidateCertHeader(image, app.value);
    if cert.None? {
      return None;
    }
    var end := cert.value;
    if nnc {
      var core := ValidateFwHeader(image, cert.value, MAXIMUM_CORE_CODE_SIZE, board);
      if core.None? {
        return None;
      }
      end := core.value;
    }
    if end != |image| {
      return None;
    }
    return Some(Layout(app.value, cert.value));
  }

  /** What the header words of an accepted image are: the board's magic number, version zero, and sizes within limits,
      for both its firmwares and for the certificate. */
  lemma AcceptedFields(image: seq<Byte>, board: Board, nnc: bool)
    requires Accepted(image, board, nnc)
    ensures board != OtherBoard
    ensures Word(image, 0)
         == if board == Hailo8 then 0x1DD8_9DE0
            else if board == Hailo15L || board == Mars then 0xF947_39AB
            else 0xE905_DAAB
    ensures Word(image, 4) == 0 && 80 <= Word(image, 20) <= 0x40000
    ensures var cert := 24 + Word(image, 20);
            && cert + 8 <= |image| && Word(image, cert) <= 0x1000 && Word(image, cert + 4) <= 0x1000
            && var core := cert + 8 + Word(image, cert) + Word(image, cert + 4);
               if nnc then
                 && core + 24 <= |image| && Word(image, core) == Word(image, 0) && Word(image, core + 4) == 0
                 && 80 <= Word(image, core + 20) <= 0x20000 && core + 24 + Word(image, core + 20) == |image|
               else core == |image|
  {
    hide Word;
  }

  // ----- the format -----

  datatype Firmware = Firmware(major: nat, minor: nat, revision: nat, code: seq<Byte>)

  datatype Certificate = Certificate(key: seq<Byte>, content: seq<Byte>)

  function FwBytes(magic: nat, f: Firmware): (r: seq<Byte>)
    ensures |r| == FW_HEADER_SIZE + |f.code|
  {
    WordBytes(magic) + WordBytes(HEADER_VERSION_INITIAL) + WordBytes(f.major) + WordBytes(f.minor)
    + WordBytes(f.revision) + WordBytes(|f.code|) + f.code
  }

  function CertBytes(c: Certificate): (r: seq<Byte>)
    ensures |r| == CERT_HEADER_SIZE + |c.key| + |c.content|
  {
    WordBytes(|c.key|) + WordBytes(|c.content|) + c.key + c.content
  }

  predicate FwFits(f: Firmware, maxCode: nat) {
    MINIMUM_CODE_SIZE <= |f.code| <= maxCode
  }

  predicate CertFits(c: Certificate) {
    |c.key| <= MAXIMUM_CERT_KEY_SIZE && |c.content| <= MAXIMUM_CERT_CONTENT_SIZE
  }

  /** An image for an NNC board (with a core firmware) or a SoC board (without). */
  function ImageBytes(magic: nat, app: Firmware, cert: Certificate, core: Option<Firmware>): seq<Byte> {
    FwBytes(magic, app) + CertBytes(cert) + if core.Some? then FwBytes(magic, core.value) else []
  }

  /** The parts of an accepted image. */
  function FwPart(image: seq<Byte>, at: nat): Firmware
    requires at + FW_HEADER_SIZE <= |image| && FwEnd(image, at) <= |image|
  {
    Firmware(Word(image, at + 8), Word(image, at + 12), Word(image, at + 16),
             image[at + FW_HEADER_SIZE..FwEnd(image, at)])
  }

  function CertPart(image: seq<Byte>, at: nat): Certificate
    requires at + CERT_HEADER_SIZE <= |image| && CertEnd(image, at) <= |image|
  {
    var key := at + CERT_HEADER_SIZE;
    Certificate(image[key..key + Word(image, at)], image[key + Word(image, at)..CertEnd(image, at)])
  }

  lemma FwPartBytes(image: seq<Byte>, at: nat, maxCode: nat, board: Board)
    requires FwAt(image, at, maxCode, board)
    ensures FwFits(FwPart(image, at), maxCode)
    ensures FwBytes(Magic(board).value, FwPart(image, at)) == image[at..FwEnd(image, at)]
  {
    hide Word, WordBytes;
    WordOfBytes(image, at);
    WordOfBytes(image, at + 4);
    WordOfBytes(image, at + 8);
    WordOfBytes(image, at + 12);
    WordOfBytes(image, at + 16);
    WordOfBytes(image, at + 20);
    Glue(image, at, at + 4, at + 8);
    Glue(image, at, at + 8, at + 12);
    Glue(image, at, at + 12, at + 16);
    Glue(image, at, at + 16, at + 20);
    Glue(image, at, at + 20, at + 24);
    Glue(image, at, at + 24, FwEnd(image, at));
  }

  lemma Glue(image: seq<Byte>, a: nat, b: nat, c: nat)
    requires a <= b <= c <= |image|
    ensures image[a..b] + image[b..c] == image[a..c]
  {
  }

  lemma SliceOfSlice(image: seq<Byte>, at: nat, n: nat, k: nat, m: nat)
    requires at + n <= |image| && k <= m <= n
    ensures image[at..at + n][k..m] == image[at + k..at + m]
  {
    var piece := image[at..at + n];
    forall i | 0 <= i < m - k ensures piece[k..m][i] == image[at + k..at + m][i] {
      assert piece[k..m][i] == piece[k + i];
    }
  }

  lemma CertPartBytes(image: seq<Byte>, at: nat)
    requires CertAt(image, at)
    ensures CertFits(CertPart(image, at))
    ensures CertBytes(CertPart(image, at)) == image[at..CertEnd(image, at)]
  {
    hide Word, WordBytes;
    WordOfBytes(image, at);
    WordOfBytes(image, at + 4);
    var key := at + CERT_HEADER_SIZE;
    Glue(image, at, at + 4, key);
    Glue(image, at, key, key + Word(image, at));
    Glue(image, at, key + Word(image, at), CertEnd(image, at));
  }

  /** An accepted image splits exactly into header, code, certificate header, key, content and, for an NNC board,
      core header and code: put together again in the image format, the parts are the image. */
  lemma AcceptedIsPartitioned(image: seq<Byte>, board: Board, nnc: bool)
    requires Accepted(image, board, nnc)
    ensures var cert := FwEnd(image, 0);
            var core := CertEnd(image, cert);
            && Magic(board).Some?
            && FwFits(FwPart(image, 0), MAXIMUM_APP_CODE_SIZE) && CertFits(CertPart(image, cert))
            && (nnc ==> FwFits(FwPart(image, core), MAXIMUM_CORE_CODE_SIZE))
            && image == ImageBytes(Magic(board).value, FwPart(image, 0), CertPart(image, cert),
                                   if nnc then Some(FwPart(image, core)) else None)
  {
    hide Word, FwBytes, CertBytes, FwFits, CertFits, FwPart, CertPart;
    var cert := FwEnd(image, 0);
    var core := CertEnd(image, cert);
    FwPartBytes(image, 0, MAXIMUM_APP_CODE_SIZE, board);
    CertPartBytes(image, cert);
    if nnc {
      FwPartBytes(image, core, MAXIMUM_CORE_CODE_SIZE, board);
      assert image == image[0..cert] + image[cert..core] + image[core..|image|];
    } else {
      assert image == image[0..cert] + image[cert..core] + [];
    }
  }

  predicate Versioned(f: Firmware) {
    f.major < TWO_32 && f.minor < TWO_32 && f.revision < TWO_32
  }

  /** A word field inside a piece of the image. */
  lemma FieldAt(image: seq<Byte>, at: nat, piece: seq<Byte>, k: nat, w: nat)
    requires at + |piece| <= |image| && image[at..at + |piece|] == piece
    requires k + 4 <= |piece| && piece[k..k + 4] == WordBytes(w) && w < TWO_32
    ensures Word(image, at + k) == w
  {
    hide Word, WordBytes;
    SliceOfSlice(image, at, |piece|, k, k + 4);
    assert WordBytes(w)[0..4] == WordBytes(w);
    WordShift(image, at + k, WordBytes(w), 0);
    WordRoundTrip(w);
  }

  lemma FwBytesAt(image: seq<Byte>, at: nat, magic: nat, f: Firmware, maxCode: nat)
    requires at + |FwBytes(magic, f)| <= |image| && image[at..at + |FwBytes(magic, f)|] == FwBytes(magic, f)
    requires magic < TWO_32 && Versioned(f) && FwFits(f, maxCode) && maxCode < TWO_32
    ensures Word(image, at) == magic && Word(image, at + 4) == HEADER_VERSION_INITIAL
    ensures Word(image, at + 20) == |f.code| && FwEnd(image, at) == at + |FwBytes(magic, f)|
    ensures FwPart(image, at) == f
  {
    hide Word, WordBytes;
    var piece := FwBytes(magic, f);
    FieldAt(image, at, piece, 0, magic);
    FieldAt(image, at, piece, 4, HEADER_VERSION_INITIAL);
    FieldAt(image, at, piece, 8, f.major);
    FieldAt(image, at, piece, 12, f.minor);
    FieldAt(image, at, piece, 16, f.revision);
    FieldAt(image, at, piece, 20, |f.code|);
    assert piece[FW_HEADER_SIZE..] == f.code;
    SliceOfSlice(image, at, |piece|, FW_HEADER_SIZE, |piece|);
  }

  lemma CertBytesAt(image: seq<Byte>, at: nat, c: Certificate)
    requires at + |CertBytes(c)| <= |image| && image[at..at + |CertBytes(c)|] == CertBytes(c) && CertFits(c)
    ensures CertAt(image, at) && CertEnd(image, at) == at + |CertBytes(c)| && CertPart(image, at) == c
  {
    hide Word, WordBytes;
    var piece := CertBytes(c);
    FieldAt(image, at, piece, 0, |c.key|);
    FieldAt(image, at, piece, 4, |c.content|);
    assert piece[CERT_HEADER_SIZE..CERT_HEADER_SIZE + |c.key|] == c.key;
    assert piece[CERT_HEADER_SIZE + |c.key|..] == c.content;
    SliceOfSlice(image, at, |piece|, CERT_HEADER_SIZE, CERT_HEADER_SIZE + |c.key|);
    SliceOfSlice(image, at, |piece|, CERT_HEADER_SIZE + |c.key|, |piece|);
  }

  /** Every image in the format, within the size limits, is accepted, and its parts are found again. */
  lemma FormatIsAccepted(board: Board, app: Firmware, cert: Certificate, core: Option<Firmware>)
    requires Magic(board).Some?
    requires Versioned(app) && FwFits(app, MAXIMUM_APP_CODE_SIZE) && CertFits(cert)
    requires core.Some? ==> Versioned(core.value) && FwFits(core.value, MAXIMUM_CORE_CODE_SIZE)
    ensures var image := ImageBytes(Magic(board).value, app, cert, core);
            && Accepted(image, board, core.Some?)
            && FwPart(image, 0) == app
            && CertPart(image, FwEnd(image, 0)) == cert
            && (core.Some? ==> FwPart(image, CertEnd(image, FwEnd(image, 0))) == core.value)
  {
    hide Word, FwBytes, CertBytes, FwPart, CertPart, CertAt;
    var magic := Magic(board).value;
    var image := ImageBytes(magic, app, cert, core);
    var a, b := |FwBytes(magic, app)|, |CertBytes(cert)|;
    assert image[0..a] == FwBytes(magic, app);
    FwBytesAt(image, 0, magic, app, MAXIMUM_APP_CODE_SIZE);
    assert image[a..a + b] == CertBytes(cert);
    CertBytesAt(image, a, cert);
    if core.Some? {
      var c := |FwBytes(magic, core.value)|;
      assert image[a + b..a + b + c] == FwBytes(magic, core.value);
      FwBytesAt(image, a + b, magic, core.value, MAXIMUM_CORE_CODE_SIZE);
    }
  }
}
