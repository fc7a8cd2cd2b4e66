/** The six structure layouts the library can project a table's formatted
    area onto (SMBIOS types 0, 1, 2, 3, 4 and 17), each with its type tag,
    its packed size, and its little-endian byte image. */
module Shapes {
  import opened Bytes
  import opened Wrappers

  /** BIOS Information, type 0; offsets are relative to the end of the header. */
  datatype BiosInfo = BiosInfo(
    vendor: byte,            // 0
    version: byte,           // 1
    address: u16,            // 2
    date: byte,              // 4
    size: byte,              // 5
    characteristics: u64)    // 6

  /** System Information, type 1. */
  datatype SystemInfo = SystemInfo(
    manufacturer: byte,      // 0
    name: byte,              // 1
    version: byte,           // 2
    serial: byte)            // 3

  /** Base Board Information, type 2. */
  datatype BaseBoardInfo = BaseBoardInfo(
    manufacturer: byte,      // 0
    product: byte,           // 1
    version: byte,           // 2
    serial: byte,            // 3
    assetTag: byte)          // 4

  /** System Enclosure or Chassis, type 3. */
  datatype ChassisInfo = ChassisInfo(
    manufacturer: byte,      // 0
    kind: byte,              // 1
    version: byte,           // 2
    serial: byte,            // 3
    assetTag: byte)          // 4

  /** Processor Information, type 4. */
  datatype ProcessorInfo = ProcessorInfo(
    socketDesignation: byte,     // 0
    processorKind: byte,         // 1
    processorFamily: byte,       // 2
    processorManufacturer: byte, // 3
    processorId: u64,            // 4
    processorVersion: byte,      // 12
    voltage: byte,               // 13
    externalClock: u16,          // 14
    maxSpeed: u16,               // 16
    currentSpeed: u16,           // 18
    status: byte,                // 20
    processorUpgrade: byte,      // 21
    l1CacheHandle: u16,          // 22
    l2CacheHandle: u16,          // 24
    l3CacheHandle: u16,          // 26
    serialNumber: byte,          // 28
    assetTag: byte,              // 29
    partNumber: byte,            // 30
    coreCount: byte,             // 31
    coreEnabled: byte,           // 32
    threadCount: byte,           // 33
    processorCharacteristics: u16, // 34
    processorFamily2: u16)       // 36

  /** Memory Device, type 17. */
  datatype MemoryDevice = MemoryDevice(
    arrayHandle: u16,            // 0
    errorInformationHandle: u16, // 2
    totalWidth: u16,             // 4
    dataWidth: u16,              // 6
    size: u16,                   // 8
    formFactor: byte,            // 10
    deviceSet: byte,             // 11
    deviceLocator: byte,         // 12
    bankLocator: byte,           // 13
    memoryKind: byte,            // 14
    kindDetail: u16,             // 15
    speed: u16,                  // 17
    manufacturer: byte,          // 19
    serialNumber: byte,          // 20
    assetTag: byte,              // 21
    partNumber: byte,            // 22
    attributes: byte,            // 23
    extendedSize: u32,           // 24
    configuredSpeed: u16,        // 28
    minimumVoltage: u16,         // 30
    maximumVoltage: u16,         // 32
    configuredVoltage: u16)      // 34

  /** Which of the six layouts. */
  datatype Kind = Bios | System | BaseBoard | Chassis | Processor | Memory

  /** A value of one of the six layouts. */
  datatype Structure =
    | BiosValue(bios: BiosInfo)
    | SystemValue(system: SystemInfo)
    | BaseBoardValue(baseBoard: BaseBoardInfo)
    | ChassisValue(chassis: ChassisInfo)
    | ProcessorValue(processor: ProcessorInfo)
    | MemoryValue(memory: MemoryDevice)

  /** The header type tag each layout is registered under. */
  function Tag(k: Kind): byte {
    match k
    case Bios => 0
    case System => 1
    case BaseBoard => 2
    case Chassis => 3
    case Processor => 4
    case Memory => 17
  }

  /** The packed size of each layout in bytes. */
  function Size(k: Kind): nat {
    match k
    case Bios => 14
    case System => 4
    case BaseBoard => 5
    case Chassis => 5
    case Processor => 38
    case Memory => 36
  }

  function KindOf(s: Structure): Kind {
    match s
    case BiosValue(_) => Bios
    case SystemValue(_) => System
    case BaseBoardValue(_) => BaseBoard
    case ChassisValue(_) => Chassis
    case ProcessorValue(_) => Processor
    case MemoryValue(_) => Memory
  }

  /** No two layouts share a tag, so a tag names at most one layout. */
  lemma TagInjective(k: Kind, l: Kind)
    ensures Tag(k) == Tag(l) <==> k == l
  {
  }

  // ---------------------------------------------------------------- type 0

  function BiosByte(b: BiosInfo, i: nat): byte
    requires i < 14
  {
    if i < 1 then b.vendor
    else if i < 2 then b.version
    else if i < 4 then Digit(b.address, i - 2)
    else if i < 5 then b.date
    else if i < 6 then b.size
    else Digit(b.characteristics, i - 6)
  }

  function EncodeBios(b: BiosInfo): (p: seq<byte>)
    ensures |p| == 14
    ensures forall i :: 0 <= i < 14 ==> p[i] == BiosByte(b, i)
  {
    seq(14, (i: int) requires 0 <= i < 14 => BiosByte(b, i))
  }

  function DecodeBios(p: seq<byte>): BiosInfo
    requires |p| >= 14
  {
    BiosInfo(p[0], p[1], U16At(p, 2), p[4], p[5], U64At(p, 6))
  }

  lemma BiosDecodesTo(b: BiosInfo, p: seq<byte>)
    requires |p| >= 14
    requires forall i :: 0 <= i < 14 ==> p[i] == BiosByte(b, i)
    ensures DecodeBios(p) == b
  {
    assert Pow256(2) == 0x1_0000;
    assert Pow256(8) == 0x1_0000_0000_0000_0000;
    U16Read(p, 2, b.address);
    ReadDigits(p, 6, 8, b.characteristics);
  }

  lemma BiosEncodes(p: seq<byte>)
    requires |p| >= 14
    ensures EncodeBios(DecodeBios(p)) == p[..14]
  {
    var b := DecodeBios(p);
    DigitsOfRead(p, 2, 2);
    DigitsOfRead(p, 6, 8);
    forall i | 0 <= i < 14
      ensures BiosByte(b, i) == p[i]
    {
    }
  }

  // ---------------------------------------------------------- types 1 to 3

  function EncodeSystem(s: SystemInfo): seq<byte> {
    [s.manufacturer, s.name, s.version, s.serial]
  }

  function DecodeSystem(p: seq<byte>): SystemInfo
    requires |p| >= 4
  {
    SystemInfo(p[0], p[1], p[2], p[3])
  }

  function EncodeBaseBoard(b: BaseBoardInfo): seq<byte> {
    [b.manufacturer, b.product, b.version, b.serial, b.assetTag]
  }

  function DecodeBaseBoard(p: seq<byte>): BaseBoardInfo
    requires |p| >= 5
  {
    BaseBoardInfo(p[0], p[1], p[2], p[3], p[4])
  }

  function EncodeChassis(c: ChassisInfo): seq<byte> {
    [c.manufacturer, c.kind, c.version, c.serial, c.assetTag]
  }

  function DecodeChassis(p: seq<byte>): ChassisInfo
    requires |p| >= 5
  {
    ChassisInfo(p[0], p[1], p[2], p[3], p[4])
  }

  // ---------------------------------------------------------------- type 4

  function ProcessorByte(c: ProcessorInfo, i: nat): byte
    requires i < 38
  {
    if i < 1 then c.socketDesignation
    else if i < 2 then c.processorKind
    else if i < 3 then c.processorFamily
    else if i < 4 then c.processorManufacturer
    else if i < 12 then Digit(c.processorId, i - 4)
    else if i < 13 then c.processorVersion
    else if i < 14 then c.voltage
    else if i < 16 then Digit(c.externalClock, i - 14)
    else if i < 18 then Digit(c.maxSpeed, i - 16)
    else if i < 20 then Digit(c.currentSpeed, i - 18)
    else if i < 21 then c.status
    else if i < 22 then c.processorUpgrade
    else if i < 24 then Digit(c.l1CacheHandle, i - 22)
    else if i < 26 then Digit(c.l2CacheHandle, i - 24)
    else if i < 28 then Digit(c.l3CacheHandle, i - 26)
    else if i < 29 then c.serialNumber
    else if i < 30 then c.assetTag
    else if i < 31 then c.partNumber
    else if i < 32 then c.coreCount
    else if i < 33 then c.coreEnabled
    else if i < 34 then c.threadCount
    else if i < 36 then Digit(c.processorCharacteristics, i - 34)
    else Digit(c.processorFamily2, i - 36)
  }

  function EncodeProcessor(c: ProcessorInfo): (p: seq<byte>)
    ensures |p| == 38
    ensures forall i :: 0 <= i < 38 ==> p[i] == ProcessorByte(c, i)
  {
    seq(38, (i: int) requires 0 <= i < 38 => ProcessorByte(c, i))
  }

  function DecodeProcessor(p: seq<byte>): ProcessorInfo
    requires |p| >= 38
  {
    ProcessorInfo(p[0], p[1], p[2], p[3], U64At(p, 4), p[12], p[13], U16At(p, 14),
                  U16At(p, 16), U16At(p, 18), p[20], p[21], U16At(p, 22), U16At(p, 24),
                  U16At(p, 26), p[28], p[29], p[30], p[31], p[32], p[33], U16At(p, 34),
                  U16At(p, 36))
  }

  lemma ProcessorDecodesTo(c: ProcessorInfo, p: seq<byte>)
    requires |p| >= 38
    requires forall i :: 0 <= i < 38 ==> p[i] == ProcessorByte(c, i)
    ensures DecodeProcessor(p) == c
  {
    assert Pow256(2) == 0x1_0000;
    assert Pow256(8) == 0x1_0000_0000_0000_0000;
    ReadDigits(p, 4, 8, c.processorId);
    U16Read(p, 14, c.externalClock);
    U16Read(p, 16, c.maxSpeed);
    U16Read(p, 18, c.currentSpeed);
    U16Read(p, 22, c.l1CacheHandle);
    U16Read(p, 24, c.l2CacheHandle);
    U16Read(p, 26, c.l3CacheHandle);
    U16Read(p, 34, c.processorCharacteristics);
    U16Read(p, 36, c.processorFamily2);
  }

  lemma ProcessorEncodes(p: seq<byte>)
    requires |p| >= 38
    ensures EncodeProcessor(DecodeProcessor(p)) == p[..38]
  {
    var c := DecodeProcessor(p);
    DigitsOfRead(p, 4, 8);
    DigitsOfRead(p, 14, 2);
    DigitsOfRead(p, 16, 2);
    DigitsOfRead(p, 18, 2);
    DigitsOfRead(p, 22, 2);
    DigitsOfRead(p, 24, 2);
    DigitsOfRead(p, 26, 2);
    DigitsOfRead(p, 34, 2);
    DigitsOfRead(p, 36, 2);
    forall i | 0 <= i < 38
      ensures ProcessorByte(c, i) == p[i]
    {
    }
  }

  // --------------------------------------------------------------- type 17

  function MemoryByte(m: MemoryDevice, i: nat): byte
    requires i < 36
  {
    if i < 2 then Digit(m.arrayHandle, i)
    else if i < 4 then Digit(m.errorInformationHandle, i - 2)
    else if i < 6 then Digit(m.totalWidth, i - 4)
    else if i < 8 then Digit(m.dataWidth, i - 6)
    else if i < 10 then Digit(m.size, i - 8)
    else if i < 11 then m.formFactor
    else if i < 12 then m.deviceSet
    else if i < 13 then m.deviceLocator
    else if i < 14 then m.bankLocator
    else if i < 15 then m.memoryKind
    else if i < 17 then Digit(m.kindDetail, i - 15)
    else if i < 19 then Digit(m.speed, i - 17)
    else if i < 20 then m.manufacturer
    else if i < 21 then m.serialNumber
    else if i < 22 then m.assetTag
    else if i < 23 then m.partNumber
    else if i < 24 then m.attributes
    else if i < 28 then Digit(m.extendedSize, i - 24)
    else if i < 30 then Digit(m.configuredSpeed, i - 28)
    else if i < 32 then Digit(m.minimumVoltage, i - 30)
    else if i < 34 then Digit(m.maximumVoltage, i - 32)
    else Digit(m.configuredVoltage, i - 34)
  }

  function EncodeMemory(m: MemoryDevice): (p: seq<byte>)
    ensures |p| == 36
    ensures forall i :: 0 <= i < 36 ==> p[i] == MemoryByte(m, i)
  {
    seq(36, (i: int) requires 0 <= i < 36 => MemoryByte(m, i))
  }

  function DecodeMemory(p: seq<byte>): MemoryDevice
    requires |p| >= 36
  {
    MemoryDevice(U16At(p, 0), U16At(p, 2), U16At(p, 4), U16At(p, 6), U16At(p, 8), p[10], p[11],
                 p[12], p[13], p[14], U16At(p, 15), U16At(p, 17), p[19], p[20], p[21], p[22],
                 p[23], U32At(p, 24), U16At(p, 28), U16At(p, 30), U16At(p, 32), U16At(p, 34))
  }

  lemma MemoryDecodesTo(m: MemoryDevice, p: seq<byte>)
    requires |p| >= 36
    requires forall i :: 0 <= i < 36 ==> p[i] == MemoryByte(m, i)
    ensures DecodeMemory(p) == m
  {
    U16Read(p, 0, m.arrayHandle);
    U16Read(p, 2, m.errorInformationHandle);
    U16Read(p, 4, m.totalWidth);
    U16Read(p, 6, m.dataWidth);
    U16Read(p, 8, m.size);
    U16Read(p, 15, m.kindDetail);
    U16Read(p, 17, m.speed);
    U32Read(p, 24, m.extendedSize);
    U16Read(p, 28, m.configuredSpeed);
    U16Read(p, 30, m.minimumVoltage);
    U16Read(p, 32, m.maximumVoltage);
    U16Read(p, 34, m.configuredVoltage);
  }

  lemma MemoryEncodes(p: seq<byte>)
    requires |p| >= 36
    ensures EncodeMemory(DecodeMemory(p)) == p[..36]
  {
    var m := DecodeMemory(p);
    DigitsOfRead(p, 0, 2);
    DigitsOfRead(p, 2, 2);
    DigitsOfRead(p, 4, 2);
    DigitsOfRead(p, 6, 2);
    DigitsOfRead(p, 8, 2);
    DigitsOfRead(p, 15, 2);
    DigitsOfRead(p, 17, 2);
    DigitsOfRead(p, 24, 4);
    DigitsOfRead(p, 28, 2);
    DigitsOfRead(p, 30, 2);
    DigitsOfRead(p, 32, 2);
    DigitsOfRead(p, 34, 2);
    forall i | 0 <= i < 36
      ensures MemoryByte(m, i) == p[i]
    {
    }
  }

  // ------------------------------------------------------------ all layouts

  /** The packed byte image of a structure. */
  function Encode(s: Structure): (p: seq<byte>)
    ensures |p| == Size(KindOf(s))
  {
    match s
    case BiosValue(b) => EncodeBios(b)
    case SystemValue(v) => EncodeSystem(v)
    case BaseBoardValue(b) => EncodeBaseBoard(b)
    case ChassisValue(c) => EncodeChassis(c)
    case ProcessorValue(c) => EncodeProcessor(c)
    case MemoryValue(m) => EncodeMemory(m)
  }

  /** Reads a structure of layout k from the first Size(k) bytes of p. It
      reads exactly those bytes: the result has layout k and re-encoding it
      reproduces them. */
  function Decode(k: Kind, p: seq<byte>): (r: Structure)
    requires |p| >= Size(k)
    ensures KindOf(r) == k
    ensures Encode(r) == p[..Size(k)]
  {
    match k
    case Bios => BiosEncodes(p); BiosValue(DecodeBios(p))
    case System => SystemValue(DecodeSystem(p))
    case BaseBoard => BaseBoardValue(DecodeBaseBoard(p))
    case Chassis => ChassisValue(DecodeChassis(p))
    case Processor => ProcessorEncodes(p); ProcessorValue(DecodeProcessor(p))
    case Memory => MemoryEncodes(p); MemoryValue(DecodeMemory(p))
  }

  /** Decoding the image of a structure, whatever bytes follow it, gives the
      structure back. */
  lemma DecodeEncode(s: Structure, rest: seq<byte>)
    ensures |Encode(s) + rest| >= Size(KindOf(s))
    ensures Decode(KindOf(s), Encode(s) + rest) == s
  {
    var p := Encode(s) + rest;
    match s
    case BiosValue(b) => BiosDecodesTo(b, p);
    case SystemValue(v) =>
    case BaseBoardValue(b) =>
    case ChassisValue(c) =>
    case ProcessorValue(c) => ProcessorDecodesTo(c, p);
    case MemoryValue(m) => MemoryDecodesTo(m, p);
  }

  /** Reinterpreting the front of a byte buffer as a packed layout: it
      succeeds exactly when the buffer holds at least the layout's size, and
      then the value is the one whose image is the buffer's first Size(k)
      bytes. The layouts are packed, so alignment never fails. */
  function FromBytes(k: Kind, p: seq<byte>): (r: Option<Structure>)
    ensures r.Some? <==> |p| >= Size(k)
    ensures r.Some? ==> KindOf(r.value) == k && Encode(r.value) == p[..Size(k)]
  {
    if |p| < Size(k) then None
    else
      Some(Decode(k, p))
  }

  /** Every structure is read back from its own image followed by anything. */
  lemma FromBytesEncode(s: Structure, rest: seq<byte>)
    ensures FromBytes(KindOf(s), Encode(s) + rest) == Some(s)
  {
    DecodeEncode(s, rest);
  }

  /** The image determines the structure: two structures of one layout with
      the same image are equal. */
  lemma EncodeInjective(s: Structure, t: Structure)
    requires Encode(s) == Encode(t)
    requires KindOf(s) == KindOf(t)
    ensures s == t
  {
    DecodeEncode(s, []);
    DecodeEncode(t, []);
  }
}
