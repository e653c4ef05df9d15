/** Writing the parts of a validated image to the device. */
module FirmwareLoad {
  import opened Bits
  import opened Mmio
  import opened DeviceMemory
  import opened FirmwareImage

  /** Where the parts go. */
  datatype Destinations = Destinations(fwHeader: nat, appCode: nat, keyCert: nat, contentCert: nat, coreCode: nat,
                                       coreHeader: nat)

  /** A piece of the image and its destination. */
  datatype Piece = Piece(dest: nat, bytes: seq<Byte>)

  /** The four writes of hailo_write_app_firmware, in order. */
  function AppPieces(image: seq<Byte>, a: Destinations): seq<Piece>
    requires FW_HEADER_SIZE <= |image| && FwEnd(image, 0) + CERT_HEADER_SIZE <= |image|
    requires CertEnd(image, FwEnd(image, 0)) <= |image|
  {
    var cert := FwEnd(image, 0);
    var key := cert + CERT_HEADER_SIZE;
    var content := key + Word(image, cert);
    [Piece(a.fwHeader, image[..FW_HEADER_SIZE]),
     Piece(a.appCode, image[FW_HEADER_SIZE..cert]),
     Piece(a.keyCert, image[key..content]),
     Piece(a.contentCert, image[content..content + Word(image, cert + 4)])]
  }

  /** The two writes of hailo_write_core_firmware, in order. */
  function CorePieces(image: seq<Byte>, a: Destinations): seq<Piece>
    requires FW_HEADER_SIZE <= |image| && FwEnd(image, 0) + CERT_HEADER_SIZE <= |image|
    requires CertEnd(image, FwEnd(image, 0)) + FW_HEADER_SIZE <= |image|
    requires FwEnd(image, CertEnd(image, FwEnd(image, 0))) <= |image|
  {
    var core := CertEnd(image, FwEnd(image, 0));
    [Piece(a.coreCode, image[core + FW_HEADER_SIZE..FwEnd(image, core)]),
     Piece(a.coreHeader, image[core..core + FW_HEADER_SIZE])]
  }

  /** Every piece of an accepted image comes from inside it, and together they are the image but for the header of the
      certificate: nothing is written twice and nothing left out. */
  lemma PiecesAreTheImage(image: seq<Byte>, a: Destinations, board: Board, nnc: bool)
    requires Accepted(image, board, nnc)
    ensures var app, cert := AppPieces(image, a), FwEnd(image, 0);
            var header := image[cert..cert + CERT_HEADER_SIZE];
            var front := app[0].bytes + app[1].bytes + header + app[2].bytes + app[3].bytes;
            if nnc then
              var core := CorePieces(image, a); image == front + core[1].bytes + core[0].bytes
            else image == front
  {
    hide Word, Accepted;
    AcceptedSizes(image, board, nnc);
    var cert := FwEnd(image, 0);
    var key, core := cert + CERT_HEADER_SIZE, CertEnd(image, cert);
    Glue(image, 0, FW_HEADER_SIZE, cert);
    Glue(image, 0, cert, key);
    Glue(image, 0, key, key + Word(image, cert));
    Glue(image, 0, key + Word(image, cert), core);
    if nnc {
      Glue(image, 0, core, core + FW_HEADER_SIZE);
      Glue(image, 0, core + FW_HEADER_SIZE, FwEnd(image, core));
    }
    AcceptedEnd(image, board, nnc);
    assert image[0..|image|] == image;
  }

  lemma AcceptedEnd(image: seq<Byte>, board: Board, nnc: bool)
    requires Accepted(image, board, nnc)
    ensures var core := CertEnd(image, FwEnd(image, 0)); if nnc then FwEnd(image, core) == |image| else core == |image|
  {
    hide Word, Magic;
  }

  predicate Fits(ps: seq<Piece>, size: nat) {
    forall p | p in ps :: p.dest < TWO_32 && p.dest + |p.bytes| <= size && p.dest + |p.bytes| < TWO_64
  }

  function Deposit(mem: seq<Byte>, ps: seq<Piece>): (r: seq<Byte>)
    requires Fits(ps, |mem|)
    ensures |r| == |mem|
    decreases |ps|
  {
    if ps == [] then mem
    else
      assert ps[0] in ps;
      Deposit(Splice(mem, ps[0].dest, ps[0].bytes), ps[1..])
  }

  /** Writes one piece after the other through the window. */
  method WritePieces(bridge: Bridge, ps: seq<Piece>)
    requires bridge.Valid() && Fits(ps, |bridge.fw.backing|)
    modifies bridge.config`backing, bridge.fw`base, bridge.fw`backing
    ensures bridge.Valid() && bridge.fw.base == old(bridge.fw.base)
    ensures bridge.fw.backing == Deposit(old(bridge.fw.backing), ps)
  {
    hide Deposit, Plan, Splice, Bridge.Valid;
    var i := 0;
    ghost var mem := bridge.fw.backing;
    assert ps[0..] == ps;
    while i < |ps|
      invariant 0 <= i <= |ps| && bridge.Valid() && bridge.fw.base == old(bridge.fw.base)
      invariant |bridge.fw.backing| == |mem| && Fits(ps[i..], |mem|)
      invariant Deposit(mem, ps) == Deposit(bridge.fw.backing, ps[i..])
    {
      var p := ps[i];
      assert p in ps;
      PlanWindowed(p.dest, |p.bytes|, |mem|);
      DepositStep(bridge.fw.backing, ps, i);
      var trace := bridge.WriteMemory(p.dest, p.bytes, 0);
      i := i + 1;
    }
    assert ps[i..] == [];
    DepositNone(bridge.fw.backing);
  }

  lemma DepositStep(mem: seq<Byte>, ps: seq<Piece>, i: nat)
    requires i < |ps| && Fits(ps, |mem|)
    ensures Fits(ps[i..], |mem|) && Fits(ps[i + 1..], |mem|) && ps[i].dest + |ps[i].bytes| <= |mem|
    ensures Deposit(mem, ps[i..]) == Deposit(Splice(mem, ps[i].dest, ps[i].bytes), ps[i + 1..])
  {
    hide Splice;
    assert ps[i] in ps;
    assert ps[i..][1..] == ps[i + 1..];
    forall p | p in ps[i..] ensures p in ps {
    }
  }

  lemma DepositNone(mem: seq<Byte>)
    ensures Fits([], |mem|) && Deposit(mem, []) == mem
  {
  }

  /** hailo_write_app_firmware: every write takes its bytes from inside the image. */
  method WriteAppFirmware(bridge: Bridge, image: seq<Byte>, a: Destinations, board: Board, nnc: bool)
    requires bridge.Valid() && Accepted(image, board, nnc)
    requires Fits(AppPieces(image, a), |bridge.fw.backing|)
    modifies bridge.config`backing, bridge.fw`base, bridge.fw`backing
    ensures bridge.Valid() && bridge.fw.base == old(bridge.fw.base)
    ensures bridge.fw.backing == Deposit(old(bridge.fw.backing), AppPieces(image, a))
  {
    hide Deposit, Bridge.Valid, Word;
    WritePieces(bridge, AppPieces(image, a));
  }

  /** hailo_write_core_firmware, called for images that hold a core firmware. */
  method WriteCoreFirmware(bridge: Bridge, image: seq<Byte>, a: Destinations, board: Board)
    requires bridge.Valid() && Accepted(image, board, true)
    requires Fits(CorePieces(image, a), |bridge.fw.backing|)
    modifies bridge.config`backing, bridge.fw`base, bridge.fw`backing
    ensures bridge.Valid() && bridge.fw.base == old(bridge.fw.base)
    ensures bridge.fw.backing == Deposit(old(bridge.fw.backing), CorePieces(image, a))
  {
    hide Deposit, Bridge.Valid, Word;
    WritePieces(bridge, CorePieces(image, a));
  }

  /** Both calls are one sequence of writes, so that AllDeposited speaks of all six pieces. */
  lemma {:induction false} DepositBoth(mem: seq<Byte>, ps: seq<Piece>, qs: seq<Piece>)
    requires Fits(ps, |mem|) && Fits(qs, |mem|)
    ensures Fits(ps + qs, |mem|) && Deposit(Deposit(mem, ps), qs) == Deposit(mem, ps + qs)
    decreases |ps|
  {
    hide Splice;
    if ps == [] {
      assert ps + qs == qs;
    } else {
      assert ps[0] in ps && (ps + qs)[1..] == ps[1..] + qs;
      DepositBoth(Splice(mem, ps[0].dest, ps[0].bytes), ps[1..], qs);
    }
  }

  // ----- what is in memory afterwards, part by part -----

  /** The n bytes at `to` and the m bytes at `from` do not overlap. */
  predicate Disjoint(to: nat, n: nat, from: nat, m: nat) {
    to + n <= from || from + m <= to
  }

  /** Where the fields of an accepted image say its parts lie. */
  datatype Parts = Parts(code: nat, cert: nat, key: nat, content: nat, core: nat, coreCode: nat)

  /** The sizes of the application code, the key, the content and the core code. */
  function PartsOf(image: seq<Byte>): (p: Parts)
    requires FW_HEADER_SIZE <= |image| && FwEnd(image, 0) + CERT_HEADER_SIZE <= |image|
    requires CertEnd(image, FwEnd(image, 0)) <= |image|
  {
    var cert := 24 + Word(image, 20);
    var key, content := Word(image, cert), Word(image, cert + 4);
    var core := cert + 8 + key + content;
    Parts(Word(image, 20), cert, key, content, core, if core + 24 <= |image| then Word(image, core + 20) else 0)
  }

  /** The application's four destinations do not overlap. */
  predicate AppDisjoint(p: Parts, a: Destinations) {
    && Disjoint(a.fwHeader, 24, a.appCode, p.code)
    && Disjoint(a.fwHeader, 24, a.keyCert, p.key)
    && Disjoint(a.fwHeader, 24, a.contentCert, p.content)
    && Disjoint(a.appCode, p.code, a.keyCert, p.key)
    && Disjoint(a.appCode, p.code, a.contentCert, p.content)
    && Disjoint(a.keyCert, p.key, a.contentCert, p.content)
  }

  /** Nor do the core's two. */
  predicate CoreDisjoint(p: Parts, a: Destinations) {
    Disjoint(a.coreCode, p.coreCode, a.coreHeader, 24)
  }

  /** And the n bytes at `to` lie outside the core's. */
  predicate OutsideCore(to: nat, n: nat, p: Parts, a: Destinations) {
    Disjoint(to, n, a.coreCode, p.coreCode) && Disjoint(to, n, a.coreHeader, 24)
  }

  /** The n bytes of the image from `from` on are in memory at `to`. */
  predicate Held(mem: seq<Byte>, to: nat, image: seq<Byte>, from: nat, n: nat) {
    && to + n <= |mem| && from + n <= |image|
    && mem[to..to + n] == image[from..from + n]
  }

  /** The application firmware is in memory: header, code, key and content, each where it belongs. */
  predicate AppInMemory(mem: seq<Byte>, image: seq<Byte>, p: Parts, a: Destinations) {
    && Held(mem, a.fwHeader, image, 0, 24)
    && Held(mem, a.appCode, image, 24, p.code)
    && Held(mem, a.keyCert, image, p.cert + 8, p.key)
    && Held(mem, a.contentCert, image, p.cert + 8 + p.key, p.content)
  }

  /** So is the core firmware: header and code. */
  predicate CoreInMemory(mem: seq<Byte>, image: seq<Byte>, p: Parts, a: Destinations) {
    && Held(mem, a.coreHeader, image, p.core, 24)
    && Held(mem, a.coreCode, image, p.core + 24, p.coreCode)
  }

  lemma AppPiecesAre(image: seq<Byte>, a: Destinations, board: Board, nnc: bool)
    requires Accepted(image, board, nnc)
    ensures var ps, p := AppPieces(image, a), PartsOf(image);
            && p.cert + 8 + p.key + p.content <= |image| && p.cert == 24 + p.code
            && ps == [Piece(a.fwHeader, image[0..24]), Piece(a.appCode, image[24..24 + p.code]),
                      Piece(a.keyCert, image[p.cert + 8..p.cert + 8 + p.key]),
                      Piece(a.contentCert, image[p.cert + 8 + p.key..p.cert + 8 + p.key + p.content])]
  {
    hide Word, Accepted;
    AcceptedSizes(image, board, nnc);
  }

  lemma CorePiecesAre(image: seq<Byte>, a: Destinations, board: Board)
    requires Accepted(image, board, true)
    ensures var ps, p := CorePieces(image, a), PartsOf(image);
            && p.core + 24 + p.coreCode <= |image|
            && ps == [Piece(a.coreCode, image[p.core + 24..p.core + 24 + p.coreCode]),
                      Piece(a.coreHeader, image[p.core..p.core + 24])]
  {
    hide Word, Accepted;
    AcceptedSizes(image, board, true);
  }

  lemma AppApart(image: seq<Byte>, p: Parts, a: Destinations, ps: seq<Piece>)
    requires p.cert + 8 + p.key + p.content <= |image| && p.cert == 24 + p.code && AppDisjoint(p, a)
    requires ps == [Piece(a.fwHeader, image[0..24]), Piece(a.appCode, image[24..24 + p.code]),
                    Piece(a.keyCert, image[p.cert + 8..p.cert + 8 + p.key]),
                    Piece(a.contentCert, image[p.cert + 8 + p.key..p.cert + 8 + p.key + p.content])]
    ensures AllApart(ps)
  {
    assert |ps[0].bytes| == 24 && |ps[1].bytes| == p.code && |ps[2].bytes| == p.key && |ps[3].bytes| == p.content;
  }

  /** A part of the image, written as the i-th piece. */
  lemma PartDeposited(mem: seq<Byte>, ps: seq<Piece>, i: nat, dest: nat, image: seq<Byte>, from: nat, n: nat)
    requires Fits(ps, |mem|) && AllApart(ps) && i < |ps| && from + n <= |image|
    requires ps[i] == Piece(dest, image[from..from + n])
    ensures Held(Deposit(mem, ps), dest, image, from, n)
  {
    hide Deposit, AllApart, Fits;
    AllDeposited(mem, ps, i);
    assert |image[from..from + n]| == n;
  }

  lemma AppDeposited(mem: seq<Byte>, image: seq<Byte>, a: Destinations, board: Board, nnc: bool)
    requires Accepted(image, board, nnc) && Fits(AppPieces(image, a), |mem|) && AppDisjoint(PartsOf(image), a)
    ensures AppInMemory(Deposit(mem, AppPieces(image, a)), image, PartsOf(image), a)
  {
    hide Word, Deposit, Accepted, AppPieces, PartsOf, Fits, AllApart, AppDisjoint, AppInMemory;
    AcceptedSizes(image, board, nnc);
    AppPiecesAre(image, a, board, nnc);
    FourDeposited(mem, image, PartsOf(image), a, AppPieces(image, a));
  }

  lemma FourDeposited(mem: seq<Byte>, image: seq<Byte>, p: Parts, a: Destinations, ps: seq<Piece>)
    requires p.cert + 8 + p.key + p.content <= |image| && p.cert == 24 + p.code && AppDisjoint(p, a) && Fits(ps, |mem|)
    requires ps == [Piece(a.fwHeader, image[0..24]), Piece(a.appCode, image[24..24 + p.code]),
                    Piece(a.keyCert, image[p.cert + 8..p.cert + 8 + p.key]),
                    Piece(a.contentCert, image[p.cert + 8 + p.key..p.cert + 8 + p.key + p.content])]
    ensures AppInMemory(Deposit(mem, ps), image, p, a)
  {
    hide Deposit, Fits, AllApart, AppDisjoint, Held;
    AppApart(image, p, a, ps);
    PartDeposited(mem, ps, 0, a.fwHeader, image, 0, 24);
    PartDeposited(mem, ps, 1, a.appCode, image, 24, p.code);
    PartDeposited(mem, ps, 2, a.keyCert, image, p.cert + 8, p.key);
    PartDeposited(mem, ps, 3, a.contentCert, image, p.cert + 8 + p.key, p.content);
  }

  lemma CoreDeposited(mem: seq<Byte>, image: seq<Byte>, a: Destinations, board: Board)
    requires Accepted(image, board, true) && Fits(CorePieces(image, a), |mem|) && CoreDisjoint(PartsOf(image), a)
    ensures CoreInMemory(Deposit(mem, CorePieces(image, a)), image, PartsOf(image), a)
  {
    hide Word, Deposit, Accepted, CorePieces, PartsOf, Fits, Held;
    AcceptedSizes(image, board, true);
    CorePiecesAre(image, a, board);
    var ps, p := CorePieces(image, a), PartsOf(image);
    assert AllApart(ps) by {
      assert Apart(ps[0], ps[1]);
    }
    PartDeposited(mem, ps, 0, a.coreCode, image, p.core + 24, p.coreCode);
    PartDeposited(mem, ps, 1, a.coreHeader, image, p.core, 24);
  }

  /** Memory outside the core's destinations is as it was. */
  lemma CoreLeaves(mem: seq<Byte>, image: seq<Byte>, a: Destinations, board: Board, at: nat, n: nat)
    requires Accepted(image, board, true) && Fits(CorePieces(image, a), |mem|) && at + n <= |mem|
    requires OutsideCore(at, n, PartsOf(image), a)
    ensures Deposit(mem, CorePieces(image, a))[at..at + n] == mem[at..at + n]
  {
    hide Word, Deposit, Accepted, CorePieces, PartsOf;
    AcceptedSizes(image, board, true);
    CorePiecesAre(image, a, board);
    DepositLeaves(mem, CorePieces(image, a), at, n);
  }

  /** write_single_file for a file with headers: the image is validated and, if it is accepted, its parts are written.
      With destinations that do not overlap, every part is afterwards in memory where it belongs. */
  method WriteImage(bridge: Bridge, image: seq<Byte>, a: Destinations, board: Board, nnc: bool, hasCore: bool)
    returns (ok: bool)
    requires bridge.Valid() && (hasCore ==> nnc)
    requires Accepted(image, board, nnc) ==> Fits(AppPieces(image, a), |bridge.fw.backing|)
    requires Accepted(image, board, nnc) && hasCore ==> Fits(CorePieces(image, a), |bridge.fw.backing|)
    modifies bridge.config`backing, bridge.fw`base, bridge.fw`backing
    ensures bridge.Valid() && bridge.fw.base == old(bridge.fw.base)
    ensures ok <==> Accepted(image, board, nnc)
    ensures !ok ==> bridge.fw.backing == old(bridge.fw.backing)
    ensures ok && AppDisjoint(PartsOf(image), a) && !hasCore ==>
              AppInMemory(bridge.fw.backing, image, PartsOf(image), a)
    ensures ok && AppDisjoint(PartsOf(image), a) && hasCore && CoreDisjoint(PartsOf(image), a)
            && AppOutsideCore(PartsOf(image), a) ==>
              && AppInMemory(bridge.fw.backing, image, PartsOf(image), a)
              && CoreInMemory(bridge.fw.backing, image, PartsOf(image), a)
  {
    hide Deposit, Bridge.Valid, Word, Accepted, AppInMemory, CoreInMemory, AppPieces, CorePieces, Fits, AppDisjoint,
      CoreDisjoint, AppOutsideCore, PartsOf;
    var layout := ValidateFwHeaders(image, board, nnc);
    ok := layout.Some?;
    if ok {
      ghost var before := bridge.fw.backing;
      AcceptedSizes(image, board, nnc);
      WriteAppFirmware(bridge, image, a, board, nnc);
      ghost var mid := bridge.fw.backing;
      if AppDisjoint(PartsOf(image), a) {
        AppDeposited(before, image, a, board, nnc);
      }
      if hasCore {
        WriteCoreFirmware(bridge, image, a, board);
        if CoreDisjoint(PartsOf(image), a) && AppOutsideCore(PartsOf(image), a) && AppDisjoint(PartsOf(image), a) {
          CoreDeposited(mid, image, a, board);
          AppStays(mid, image, a, board);
        }
      }
    }
  }

  lemma AcceptedSizes(image: seq<Byte>, board: Board, nnc: bool)
    requires Accepted(image, board, nnc)
    ensures FW_HEADER_SIZE <= |image| && FwEnd(image, 0) + CERT_HEADER_SIZE <= |image|
    ensures CertEnd(image, FwEnd(image, 0)) <= |image|
    ensures nnc ==> CertEnd(image, FwEnd(image, 0)) + FW_HEADER_SIZE <= |image|
    ensures nnc ==> FwEnd(image, CertEnd(image, FwEnd(image, 0))) <= |image|
  {
    hide Word, Magic;
  }

  /** The application's destinations lie outside the core's. */
  predicate AppOutsideCore(p: Parts, a: Destinations) {
    && OutsideCore(a.fwHeader, 24, p, a) && OutsideCore(a.appCode, p.code, p, a)
    && OutsideCore(a.keyCert, p.key, p, a) && OutsideCore(a.contentCert, p.content, p, a)
  }

  lemma AppStays(mem: seq<Byte>, image: seq<Byte>, a: Destinations, board: Board)
    requires Accepted(image, board, true) && Fits(CorePieces(image, a), |mem|)
    requires AppInMemory(mem, image, PartsOf(image), a) && AppOutsideCore(PartsOf(image), a)
    ensures AppInMemory(Deposit(mem, CorePieces(image, a)), image, PartsOf(image), a)
  {
    hide Word, Deposit, Accepted, CorePieces, Fits, OutsideCore, PartsOf;
    AcceptedSizes(image, board, true);
    var p := PartsOf(image);
    CoreLeaves(mem, image, a, board, a.fwHeader, 24);
    CoreLeaves(mem, image, a, board, a.appCode, p.code);
    CoreLeaves(mem, image, a, board, a.keyCert, p.key);
    CoreLeaves(mem, image, a, board, a.contentCert, p.content);
  }

  // ----- pieces in general -----

  predicate Apart(p: Piece, q: Piece) {
    p.dest + |p.bytes| <= q.dest || q.dest + |q.bytes| <= p.dest
  }

  predicate AllApart(ps: seq<Piece>) {
    forall i, j | 0 <= i < j < |ps| :: Apart(ps[i], ps[j])
  }

  /** Memory that no piece touches stays as it is. */
  lemma {:induction false} DepositLeaves(mem: seq<Byte>, ps: seq<Piece>, at: nat, n: nat)
    requires Fits(ps, |mem|) && at + n <= |mem|
    requires forall p | p in ps :: p.dest + |p.bytes| <= at || at + n <= p.dest
    ensures Deposit(mem, ps)[at..at + n] == mem[at..at + n]
    decreases |ps|
  {
    if ps != [] {
      assert ps[0] in ps;
      var once := Splice(mem, ps[0].dest, ps[0].bytes);
      DepositLeaves(once, ps[1..], at, n);
      SpliceLeaves(mem, ps[0].dest, ps[0].bytes, at, n);
    }
  }

  lemma SpliceLeaves(mem: seq<Byte>, to: nat, d: seq<Byte>, at: nat, n: nat)
    requires to + |d| <= |mem| && at + n <= |mem| && (to + |d| <= at || at + n <= to)
    ensures Splice(mem, to, d)[at..at + n] == mem[at..at + n]
  {
  }

  lemma SpliceHolds(mem: seq<Byte>, to: nat, d: seq<Byte>)
    requires to + |d| <= |mem|
    ensures Splice(mem, to, d)[to..to + |d|] == d
  {
  }

  /** Pieces whose destinations do not overlap are all in memory afterwards. */
  lemma {:induction false} AllDeposited(mem: seq<Byte>, ps: seq<Piece>, i: nat)
    requires Fits(ps, |mem|) && AllApart(ps) && i < |ps|
    ensures ps[i].dest + |ps[i].bytes| <= |mem|
    ensures Deposit(mem, ps)[ps[i].dest..ps[i].dest + |ps[i].bytes|] == ps[i].bytes
    decreases |ps|
  {
    hide Splice;
    var p := ps[0];
    assert p in ps && ps[i] in ps;
    var once := Splice(mem, p.dest, p.bytes);
    if i == 0 {
      forall q | q in ps[1..] ensures q.dest + |q.bytes| <= p.dest || p.dest + |p.bytes| <= q.dest {
        var j :| 0 <= j < |ps[1..]| && ps[1..][j] == q;
        assert Apart(ps[0], ps[j + 1]);
      }
      DepositLeaves(once, ps[1..], p.dest, |p.bytes|);
      SpliceHolds(mem, p.dest, p.bytes);
    } else {
      forall a, b | 0 <= a < b < |ps[1..]| ensures Apart(ps[1..][a], ps[1..][b]) {
        assert Apart(ps[a + 1], ps[b + 1]);
      }
      AllDeposited(once, ps[1..], i - 1);
    }
  }
}
