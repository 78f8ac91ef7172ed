/** Frame translation of vhost-device-can between VIRTIO CAN frames and frames on the bus. */
module CanFrames {
  import opened Common

  const CAN_EFF_FLAG: bv32 := 0x8000_0000
  const CAN_RTR_FLAG: bv32 := 0x4000_0000
  const CAN_ERR_FLAG: bv32 := 0x2000_0000
  const CAN_SFF_MASK: bv32 := 0x0000_07FF
  const CAN_EFF_MASK: bv32 := 0x1FFF_FFFF
  const CAN_FRMF_TYPE_FD: bv32 := 0x10
  const CAN_ERR_BUSOFF: bv32 := 0x40

  const FLAGS_EXTENDED: bv32 := 0x8000
  const FLAGS_FD: bv32 := 0x4000
  const FLAGS_RTR: bv32 := 0x2000
  const FLAGS_VALID_MASK: bv32 := 0xE000

  // What a standard id has no room for.
  const STRAY_ID_BITS: bv32 := 0x1FFF_F800

  const CAN_TX: u16 := 0x0001
  const CAN_RX: u16 := 0x0101

  // Feature bits 0, 1 and 2, as masks.
  const F_CAN_CLASSIC: bv64 := 1
  const F_CAN_FD: bv64 := 2
  const F_RTR_FRAMES: bv64 := 4

  const CTRL_BUSOFF: u16 := 2
  const CS_STOPPED: u8 := 2

  type Sdu = s: seq<u8> | |s| == 64 witness seq(64, _ => 0)

  datatype Frame = Frame(msgType: u16, length: u16, reserved: bv32, flags: bv32, canId: bv32, sdu: Sdu)

  datatype CanError =
    | UnexpectedCanMsgType
    | InvalidCanFlags
    | UnexpectedCanId(bits: nat)
    | UnexpectedRtrFlag
    | UnexpectedFdFlag
    | UnexpectedClassicFlag
    | InvalidCanLength
    | BusoffRxFrame
    | RxFrameUnknownFail

  predicate CheckFeature(acked: bv64, mask: bv64) {
    acked & mask != 0
  }

  predicate Has(word: bv32, mask: bv32) {
    word & mask != 0
  }

  function With(word: bv32, mask: bv32): (r: bv32) {
    word | mask
  }

  function Cut(word: bv32, mask: bv32): (r: bv32) {
    word & mask
  }

  predicate IdFits(id: bv32, extended: bool) {
    if extended then id <= CAN_EFF_MASK else id <= CAN_SFF_MASK
  }

  predicate ValidLength(fd: bool, length: u16) {
    length <= 8 || (fd && length in {12, 16, 20, 24, 32, 48, 64})
  }

  function IdWord(id: bv32, extended: bool, rtr: bool): (word: bv32) {
    id | (if extended then CAN_EFF_FLAG else 0) | (if rtr then CAN_RTR_FLAG else 0)
  }

  function IdBits(word: bv32): (id: bv32) {
    if Has(word, CAN_EFF_FLAG) then Cut(word, CAN_EFF_MASK) else Cut(word, CAN_SFF_MASK)
  }

  function FrameFlags(extended: bool, rtr: bool, fd: bool): (flags: bv32) {
    (if extended then FLAGS_EXTENDED else 0) | (if rtr then FLAGS_RTR else 0) | (if fd then FLAGS_FD else 0)
  }

  /** A guest frame on its way to the bus: the id takes over the EXTENDED and RTR flags, FD becomes the
      internal frame type. */
  function CheckTxFrame(acked: bv64, f: Frame): (r: Result<Frame, CanError>) {
    var extended, rtr, fd := Has(f.flags, FLAGS_EXTENDED), Has(f.flags, FLAGS_RTR), Has(f.flags, FLAGS_FD);
    if f.msgType != CAN_TX then Err(UnexpectedCanMsgType)
    else if Has(f.flags, !FLAGS_VALID_MASK) then Err(InvalidCanFlags)
    else if !IdFits(f.canId, extended) then Err(UnexpectedCanId(if extended then 29 else 11))
    else if rtr && !(CheckFeature(acked, F_CAN_CLASSIC) && CheckFeature(acked, F_RTR_FRAMES)) then Err(UnexpectedRtrFlag)
    else if fd && !CheckFeature(acked, F_CAN_FD) then Err(UnexpectedFdFlag)
    else if !fd && !CheckFeature(acked, F_CAN_CLASSIC) then Err(UnexpectedClassicFlag)
    else if !ValidLength(fd, f.length) then Err(InvalidCanLength)
    else Ok(Frame(f.msgType, f.length, 0, if fd then CAN_FRMF_TYPE_FD else 0, IdWord(f.canId, extended, rtr), f.sdu))
  }

  /** Whether a frame for the guest counts as FD. A virtual interface cannot be configured for FD, so a long
      frame from it does as well. */
  predicate CountsAsFd(acked: bv64, name: string, f: Frame) {
    Has(f.flags, CAN_FRMF_TYPE_FD) || (CheckFeature(acked, F_CAN_FD) && f.length > 8 && name == "vcan0")
  }

  /** What becomes of a bus frame on its way to the guest, on the interface `name`. */
  function RxVerdict(acked: bv64, name: string, f: Frame): (r: Result<Frame, CanError>) {
    var typeFd, fd := Has(f.flags, CAN_FRMF_TYPE_FD), CountsAsFd(acked, name, f);
    var extended, rtr := Has(f.canId, CAN_EFF_FLAG), Has(f.canId, CAN_RTR_FLAG);
    if Has(f.canId, CAN_ERR_FLAG) then
      Err(if Has(f.canId, CAN_ERR_BUSOFF) then BusoffRxFrame else RxFrameUnknownFail)
    else if typeFd && !CheckFeature(acked, F_CAN_FD) then Err(UnexpectedFdFlag)
    else if !typeFd && !CheckFeature(acked, F_CAN_CLASSIC) then Err(UnexpectedClassicFlag)
    else if rtr && !(CheckFeature(acked, F_RTR_FRAMES) && CheckFeature(acked, F_CAN_CLASSIC)) then Err(UnexpectedRtrFlag)
    else if !ValidLength(fd, f.length) then Err(InvalidCanLength)
    else Ok(Frame(CAN_RX, f.length, 0, FrameFlags(extended, rtr, fd), IdBits(f.canId), f.sdu))
  }

  function Padded(data: seq<u8>): (sdu: Sdu)
    requires |data| <= 64
  {
    data + seq(64 - |data|, _ => 0)
  }

  /** What the read thread makes of a frame received from the bus. */
  function ProcessFrame(idWord: bv32, data: seq<u8>, isFd: bool): (f: Frame)
    requires |data| <= 64
  {
    Frame(CAN_RX, |data|, 0, if isFd then CAN_FRMF_TYPE_FD else 0, idWord, Padded(data))
  }

  // ----- Bits -----

  lemma IdWordBits(id: bv32, extended: bool, rtr: bool)
    requires IdFits(id, extended)
    ensures Has(IdWord(id, extended, rtr), CAN_EFF_FLAG) <==> extended
    ensures Has(IdWord(id, extended, rtr), CAN_RTR_FLAG) <==> rtr
    ensures !Has(IdWord(id, extended, rtr), CAN_ERR_FLAG)
    ensures IdBits(IdWord(id, extended, rtr)) == id
  {
  }

  /** Taking the id out of a bus word and building the word again drops the bits a standard id has no room
      for. */
  lemma IdBitsWord(word: bv32)
    requires !Has(word, CAN_ERR_FLAG)
    ensures IdFits(IdBits(word), Has(word, CAN_EFF_FLAG))
    ensures IdWord(IdBits(word), Has(word, CAN_EFF_FLAG), Has(word, CAN_RTR_FLAG)) == word
            <==> Has(word, CAN_EFF_FLAG) || !Has(word, STRAY_ID_BITS)
  {
    hide Has, IdFits, IdWord, IdBits;
    IdBitsFit(word);
    if !Has(word, CAN_EFF_FLAG) {
      StandardWord(word);
    } else if Has(word, CAN_RTR_FLAG) {
      ExtendedRemoteWord(word);
    } else {
      ExtendedDataWord(word);
    }
  }

  lemma IdBitsFit(word: bv32)
    ensures IdFits(IdBits(word), Has(word, CAN_EFF_FLAG))
  {
  }

  lemma ExtendedRemoteWord(word: bv32)
    requires !Has(word, CAN_ERR_FLAG) && Has(word, CAN_EFF_FLAG) && Has(word, CAN_RTR_FLAG)
    ensures IdWord(IdBits(word), true, true) == word
  {
  }

  lemma ExtendedDataWord(word: bv32)
    requires !Has(word, CAN_ERR_FLAG) && Has(word, CAN_EFF_FLAG) && !Has(word, CAN_RTR_FLAG)
    ensures IdWord(IdBits(word), true, false) == word
  {
  }

  lemma StandardWord(word: bv32)
    requires !Has(word, CAN_ERR_FLAG) && !Has(word, CAN_EFF_FLAG)
    ensures IdWord(IdBits(word), false, Has(word, CAN_RTR_FLAG)) == word <==> !Has(word, STRAY_ID_BITS)
  {
  }

  lemma FlagBits(flags: bv32)
    requires !Has(flags, !FLAGS_VALID_MASK)
    ensures flags == FrameFlags(Has(flags, FLAGS_EXTENDED), Has(flags, FLAGS_RTR), Has(flags, FLAGS_FD))
  {
  }

  lemma BuiltFlagBits(extended: bool, rtr: bool, fd: bool)
    ensures var flags := FrameFlags(extended, rtr, fd);
            && !Has(flags, !FLAGS_VALID_MASK)
            && (Has(flags, FLAGS_EXTENDED) <==> extended)
            && (Has(flags, FLAGS_RTR) <==> rtr)
            && (Has(flags, FLAGS_FD) <==> fd)
  {
  }

  lemma TypeBit(fd: bool)
    ensures Has(if fd then CAN_FRMF_TYPE_FD else 0, CAN_FRMF_TYPE_FD) <==> fd
  {
  }

  lemma SetTypeBit(flags: bv32)
    ensures Has(With(flags, CAN_FRMF_TYPE_FD), CAN_FRMF_TYPE_FD)
  {
  }

  /** Setting the flags one after the other builds the same word. */
  lemma FlagSteps(extended: bool, rtr: bool, fd: bool)
    ensures var f0: bv32 := if extended then FLAGS_EXTENDED else 0;
            var f1 := if rtr then With(f0, FLAGS_RTR) else f0;
            (if fd then With(f1, FLAGS_FD) else f1) == FrameFlags(extended, rtr, fd)
  {
  }

  // ----- Which frames are accepted, bit by bit -----

  lemma MaskBits(word: bv32)
    ensures Has(word, CAN_EFF_FLAG) <==> word & 0x8000_0000 != 0
    ensures Has(word, CAN_RTR_FLAG) <==> word & 0x4000_0000 != 0
    ensures Has(word, CAN_ERR_FLAG) <==> word & 0x2000_0000 != 0
    ensures Has(word, CAN_ERR_BUSOFF) <==> word & 0x40 != 0
    ensures Has(word, CAN_FRMF_TYPE_FD) <==> word & 0x10 != 0
    ensures Has(word, FLAGS_EXTENDED) <==> word & 0x8000 != 0
    ensures Has(word, FLAGS_FD) <==> word & 0x4000 != 0
    ensures Has(word, FLAGS_RTR) <==> word & 0x2000 != 0
  {
  }

  lemma UndefinedBits(word: bv32)
    ensures Has(word, !FLAGS_VALID_MASK) <==> word & 0xFFFF_1FFF != 0
  {
  }

  lemma FeatureBits(acked: bv64)
    ensures CheckFeature(acked, F_CAN_CLASSIC) <==> acked & 1 != 0
    ensures CheckFeature(acked, F_CAN_FD) <==> acked & 2 != 0
    ensures CheckFeature(acked, F_RTR_FRAMES) <==> acked & 4 != 0
  {
  }

  /** Classic CAN is feature 1, CAN FD feature 2, remote frames feature 4. */
  ghost predicate TxAccepts(acked: bv64, f: Frame) {
    && f.msgType == 1
    && f.flags & 0xFFFF_1FFF == 0
    && (if f.flags & 0x8000 != 0 then f.canId <= 0x1FFF_FFFF else f.canId <= 0x7FF)
    && (f.flags & 0x2000 != 0 ==> acked & 1 != 0 && acked & 4 != 0)
    && (if f.flags & 0x4000 != 0 then acked & 2 != 0 else acked & 1 != 0)
    && (f.length <= 8 || (f.flags & 0x4000 != 0 && f.length in {12, 16, 20, 24, 32, 48, 64}))
  }

  /** A refusal names a fault the guest frame has. */
  ghost predicate TxFault(acked: bv64, f: Frame, e: CanError) {
    match e
    case UnexpectedCanMsgType => f.msgType != 1
    case InvalidCanFlags => f.flags & 0xFFFF_1FFF != 0
    case UnexpectedCanId(bits) =>
      if f.flags & 0x8000 != 0 then bits == 29 && f.canId > 0x1FFF_FFFF else bits == 11 && f.canId > 0x7FF
    case UnexpectedRtrFlag => f.flags & 0x2000 != 0 && (acked & 1 == 0 || acked & 4 == 0)
    case UnexpectedFdFlag => f.flags & 0x4000 != 0 && acked & 2 == 0
    case UnexpectedClassicFlag => f.flags & 0x4000 == 0 && acked & 1 == 0
    case InvalidCanLength => f.length > 8 && (f.flags & 0x4000 == 0 || f.length !in {12, 16, 20, 24, 32, 48, 64})
    case _ => false
  }

  /** A guest frame is accepted exactly when it has none of the faults, and then carries its flags in the id. */
  lemma TxExactly(acked: bv64, f: Frame)
    ensures CheckTxFrame(acked, f).Ok? <==> TxAccepts(acked, f)
    ensures CheckTxFrame(acked, f).Err? ==> TxFault(acked, f, CheckTxFrame(acked, f).error)
    ensures CheckTxFrame(acked, f).Ok? ==>
              var tx := CheckTxFrame(acked, f).value;
              && tx.msgType == 1 && tx.length == f.length && tx.reserved == 0 && tx.sdu == f.sdu
              && tx.flags == (if f.flags & 0x4000 != 0 then 0x10 else 0)
              && tx.canId & 0x1FFF_FFFF == f.canId && tx.canId & 0x2000_0000 == 0
              && (tx.canId & 0x8000_0000 != 0 <==> f.flags & 0x8000 != 0)
              && (tx.canId & 0x4000_0000 != 0 <==> f.flags & 0x2000 != 0)
  {
    hide CheckTxFrame, TxAccepts, TxFault;
    TxVerdictExactly(acked, f);
    if CheckTxFrame(acked, f).Ok? {
      TxValueExactly(acked, f);
    }
  }

  lemma TxVerdictExactly(acked: bv64, f: Frame)
    ensures CheckTxFrame(acked, f).Ok? <==> TxAccepts(acked, f)
    ensures CheckTxFrame(acked, f).Err? ==> TxFault(acked, f, CheckTxFrame(acked, f).error)
  {
    MaskBits(f.flags);
    UndefinedBits(f.flags);
    FeatureBits(acked);
    FitBits(f.canId);
    hide Has, CheckFeature, IdFits, IdWord;
  }

  lemma TxValueExactly(acked: bv64, f: Frame)
    requires CheckTxFrame(acked, f).Ok?
    ensures var tx := CheckTxFrame(acked, f).value;
            && tx.msgType == 1 && tx.length == f.length && tx.reserved == 0 && tx.sdu == f.sdu
            && tx.flags == (if f.flags & 0x4000 != 0 then 0x10 else 0)
            && tx.canId & 0x1FFF_FFFF == f.canId && tx.canId & 0x2000_0000 == 0
            && (tx.canId & 0x8000_0000 != 0 <==> f.flags & 0x8000 != 0)
            && (tx.canId & 0x4000_0000 != 0 <==> f.flags & 0x2000 != 0)
  {
    MaskBits(f.flags);
    var extended, rtr := Has(f.flags, FLAGS_EXTENDED), Has(f.flags, FLAGS_RTR);
    hide Has, CheckFeature, IdFits, IdWord;
    IdWordBits(f.canId, extended, rtr);
    IdWordLow(f.canId, extended, rtr);
    MaskBits(IdWord(f.canId, extended, rtr));
  }

  lemma FitBits(id: bv32)
    ensures IdFits(id, true) <==> id <= 0x1FFF_FFFF
    ensures IdFits(id, false) <==> id <= 0x7FF
  {
  }

  lemma IdWordLow(id: bv32, extended: bool, rtr: bool)
    requires IdFits(id, extended)
    ensures IdWord(id, extended, rtr) & 0x1FFF_FFFF == id
  {
  }

  ghost predicate RxAccepts(acked: bv64, name: string, f: Frame) {
    && f.canId & 0x2000_0000 == 0
    && (if f.flags & 0x10 != 0 then acked & 2 != 0 else acked & 1 != 0)
    && (f.canId & 0x4000_0000 != 0 ==> acked & 1 != 0 && acked & 4 != 0)
    && (f.length <= 8
        || (f.length in {12, 16, 20, 24, 32, 48, 64}
            && (f.flags & 0x10 != 0 || (acked & 2 != 0 && name == "vcan0"))))
  }

  /** A refusal names a fault the bus frame has. */
  ghost predicate RxFault(acked: bv64, name: string, f: Frame, e: CanError) {
    match e
    case BusoffRxFrame => f.canId & 0x2000_0000 != 0 && f.canId & 0x40 != 0
    case RxFrameUnknownFail => f.canId & 0x2000_0000 != 0 && f.canId & 0x40 == 0
    case UnexpectedFdFlag => f.flags & 0x10 != 0 && acked & 2 == 0
    case UnexpectedClassicFlag => f.flags & 0x10 == 0 && acked & 1 == 0
    case UnexpectedRtrFlag => f.canId & 0x4000_0000 != 0 && (acked & 1 == 0 || acked & 4 == 0)
    case InvalidCanLength =>
      && f.length > 8
      && (f.length !in {12, 16, 20, 24, 32, 48, 64}
          || (f.flags & 0x10 == 0 && (acked & 2 == 0 || name != "vcan0")))
    case _ => false
  }

  /** A bus frame is accepted exactly when it has none of the faults, an error frame always being refused as
      what it is; the guest gets its id without the flags, and the flags in their own word. */
  lemma RxExactly(acked: bv64, name: string, f: Frame)
    ensures RxVerdict(acked, name, f).Ok? <==> RxAccepts(acked, name, f)
    ensures RxVerdict(acked, name, f).Err? ==> RxFault(acked, name, f, RxVerdict(acked, name, f).error)
    ensures RxVerdict(acked, name, f) == Err(BusoffRxFrame) <==> f.canId & 0x2000_0000 != 0 && f.canId & 0x40 != 0
    ensures RxVerdict(acked, name, f) == Err(RxFrameUnknownFail) <==> f.canId & 0x2000_0000 != 0 && f.canId & 0x40 == 0
    ensures RxVerdict(acked, name, f).Ok? ==>
              var rx := RxVerdict(acked, name, f).value;
              && rx.msgType == 0x101 && rx.length == f.length && rx.reserved == 0 && rx.sdu == f.sdu
              && rx.flags & 0xFFFF_1FFF == 0
              && (rx.flags & 0x8000 != 0 <==> f.canId & 0x8000_0000 != 0)
              && (rx.flags & 0x2000 != 0 <==> f.canId & 0x4000_0000 != 0)
              && (rx.flags & 0x4000 != 0 <==>
                    f.flags & 0x10 != 0 || (acked & 2 != 0 && f.length > 8 && name == "vcan0"))
              && rx.canId == (if f.canId & 0x8000_0000 != 0 then f.canId & 0x1FFF_FFFF else f.canId & 0x7FF)
  {
    MaskBits(f.canId);
    MaskBits(f.flags);
    FeatureBits(acked);
    CutIdBits(f.canId);
    var extended, rtr, fd := Has(f.canId, CAN_EFF_FLAG), Has(f.canId, CAN_RTR_FLAG), CountsAsFd(acked, name, f);
    BuiltFlagBits(extended, rtr, fd);
    MaskBits(FrameFlags(extended, rtr, fd));
    UndefinedBits(FrameFlags(extended, rtr, fd));
    hide Has, CheckFeature, FrameFlags, IdBits;
  }

  lemma CutIdBits(word: bv32)
    ensures IdBits(word) == if word & 0x8000_0000 != 0 then word & 0x1FFF_FFFF else word & 0x7FF
  {
  }

  // ----- Round trips -----

  /** Any frame accepted from the guest and carried losslessly by the bus is accepted back, on every
      interface, with the same id, flags and length; the payload is the same up to its length, hence the
      same altogether exactly when the rest was zero. */
  lemma TxRxRoundTrip(acked: bv64, name: string, f: Frame)
    requires CheckTxFrame(acked, f).Ok?
    ensures f.length <= 64
    ensures var tx := CheckTxFrame(acked, f).value;
            var rx := RxVerdict(acked, name, ProcessFrame(tx.canId, tx.sdu[..tx.length], Has(tx.flags, CAN_FRMF_TYPE_FD)));
            && rx.Ok?
            && rx.value == Frame(CAN_RX, f.length, 0, f.flags, f.canId, Padded(f.sdu[..f.length]))
            && (rx.value.sdu == f.sdu <==> forall i | f.length <= i < 64 :: f.sdu[i] == 0)
  {
    hide Has, IdFits, IdWord, IdBits, FrameFlags, CheckFeature;
    var extended, rtr, fd := Has(f.flags, FLAGS_EXTENDED), Has(f.flags, FLAGS_RTR), Has(f.flags, FLAGS_FD);
    IdWordBits(f.canId, extended, rtr);
    FlagBits(f.flags);
    TypeBit(fd);
    PaddedBack(f.sdu, f.length);
  }

  lemma PaddedBack(sdu: Sdu, length: nat)
    requires length <= 64
    ensures Padded(sdu[..length]) == sdu <==> forall i | length <= i < 64 :: sdu[i] == 0
  {
    var padded := Padded(sdu[..length]);
    assert forall i | length <= i < 64 :: padded[i] == 0;
    if forall i | length <= i < 64 :: sdu[i] == 0 {
      assert padded == sdu;
    }
  }

  /** A frame delivered to the guest would be accepted if sent back as it is. The way back gives the bus
      frame it came from exactly when that had no stray bits outside the format of its id; its type is FD
      exactly when it counted as FD. */
  lemma RxTxRoundTrip(acked: bv64, name: string, f: Frame)
    requires RxVerdict(acked, name, f).Ok?
    ensures var rx := RxVerdict(acked, name, f).value;
            var tx := CheckTxFrame(acked, rx.(msgType := CAN_TX));
            && tx.Ok? && tx.value.length == f.length && tx.value.sdu == f.sdu
            && (tx.value.canId == f.canId <==> Has(f.canId, CAN_EFF_FLAG) || !Has(f.canId, STRAY_ID_BITS))
            && (Has(tx.value.flags, CAN_FRMF_TYPE_FD) <==> CountsAsFd(acked, name, f))
  {
    hide Has, IdFits, IdWord, IdBits, FrameFlags, CheckFeature;
    var extended, rtr, fd := Has(f.canId, CAN_EFF_FLAG), Has(f.canId, CAN_RTR_FLAG), CountsAsFd(acked, name, f);
    BuiltFlagBits(extended, rtr, fd);
    IdBitsWord(f.canId);
    TypeBit(fd);
  }

  // ----- The way out -----

  /** The id `can_out` hands to the socket library: a standard id is cut to 16 bits first. */
  function HandedOver(word: bv32): (id: bv32) {
    if word & CAN_EFF_FLAG != 0 then word else word & 0xFFFF
  }

  /** The cut drops the RTR flag: the id handed over is the checked one exactly when the frame is extended
      or no remote request. */
  lemma RemoteFlagOfStandardFrameIsDropped(acked: bv64, f: Frame)
    requires CheckTxFrame(acked, f).Ok?
    ensures var id := CheckTxFrame(acked, f).value.canId;
            HandedOver(id) == id <==> Has(f.flags, FLAGS_EXTENDED) || !Has(f.flags, FLAGS_RTR)
  {
    hide Has, IdFits, IdWord, CheckFeature, HandedOver;
    CutBits(f.canId, Has(f.flags, FLAGS_EXTENDED), Has(f.flags, FLAGS_RTR));
  }

  /** A remote request for standard id 1 is accepted and leaves as a data request. */
  lemma RemoteRequestLosesFlag(sdu: Sdu)
    ensures var f := Frame(CAN_TX, 0, 0, FLAGS_RTR, 1, sdu);
            && CheckTxFrame(7, f).Ok?
            && CheckTxFrame(7, f).value.canId == 0x4000_0001
            && HandedOver(CheckTxFrame(7, f).value.canId) == 1
  {
  }

  lemma CutBits(id: bv32, extended: bool, rtr: bool)
    requires IdFits(id, extended)
    ensures HandedOver(IdWord(id, extended, rtr)) == IdWord(id, extended, rtr) <==> extended || !rtr
  {
  }

  // ----- The controller -----

  class CanController {
    const canName: string
    var status: u16
    var ctrlState: u8

    constructor (canName: string)
      ensures this.canName == canName && status == 0 && ctrlState == 2
    {
      this.canName, this.status, this.ctrlState := canName, 0, CS_STOPPED;
    }

    /** Only a bus-off error frame changes the controller: it is marked bus-off and stopped. */
    method CheckRxFrame(acked: bv64, response: Frame) returns (r: Result<Frame, CanError>)
      modifies this
      ensures r == RxVerdict(acked, canName, response)
      ensures r == Err(BusoffRxFrame) <==> response.canId & 0x2000_0000 != 0 && response.canId & 0x40 != 0
      ensures r == Err(RxFrameUnknownFail) <==> response.canId & 0x2000_0000 != 0 && response.canId & 0x40 == 0
      ensures r.Ok? <==> RxAccepts(acked, canName, response)
      ensures r.Err? ==> RxFault(acked, canName, response, r.error)
      ensures if response.canId & 0x2000_0000 != 0 && response.canId & 0x40 != 0
              then status == 2 && ctrlState == 2
              else status == old(status) && ctrlState == old(ctrlState)
    {
      RxExactly(acked, canName, response);
      MaskBits(response.canId);
      hide Has, With, Cut, FrameFlags, CheckFeature, RxAccepts, RxFault;
      var length, id, flags := response.length, response.canId, response.flags;
      ghost var fd := CountsAsFd(acked, canName, response);
      FlagSteps(Has(id, CAN_EFF_FLAG), Has(id, CAN_RTR_FLAG), fd);
      SetTypeBit(flags);
      if Has(id, CAN_ERR_FLAG) {
        if Has(id, CAN_ERR_BUSOFF) {
          status := CTRL_BUSOFF;
          ctrlState := CS_STOPPED;
          return Err(BusoffRxFrame);
        }
        return Err(RxFrameUnknownFail);
      }
      if Has(flags, CAN_FRMF_TYPE_FD) {
        if !CheckFeature(acked, F_CAN_FD) {
          return Err(UnexpectedFdFlag);
        }
      } else if !CheckFeature(acked, F_CAN_CLASSIC) {
        return Err(UnexpectedClassicFlag);
      }
      var rxFlags: bv32, rxId := 0, Cut(id, CAN_SFF_MASK);
      if Has(id, CAN_EFF_FLAG) {
        rxFlags := FLAGS_EXTENDED;
        rxId := Cut(id, CAN_EFF_MASK);
      }
      if Has(id, CAN_RTR_FLAG) {
        if !CheckFeature(acked, F_RTR_FRAMES) || !CheckFeature(acked, F_CAN_CLASSIC) {
          return Err(UnexpectedRtrFlag);
        }
        rxFlags := With(rxFlags, FLAGS_RTR);
      }
      if CheckFeature(acked, F_CAN_FD) && length > 8 && canName == "vcan0" {
        flags := With(flags, CAN_FRMF_TYPE_FD);
      }
      if Has(flags, CAN_FRMF_TYPE_FD) {
        if length > 8 && length !in {12, 16, 20, 24, 32, 48, 64} {
          return Err(InvalidCanLength);
        }
        rxFlags := With(rxFlags, FLAGS_FD);
      } else if length > 8 {
        return Err(InvalidCanLength);
      }
      r := Ok(Frame(CAN_RX, length, 0, rxFlags, rxId, response.sdu));
    }
  }
}
