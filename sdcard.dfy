/** The SPI-mode SD card driver (kernel/src/drivers/block/sdcard.rs). The
    card is seen through the bus: every byte the driver writes is appended
    to `sent`, and reads take the bytes the card shifts out next from
    `incoming`; once those run out the line is idle and reads 0xFF. Pin,
    clock and SPI-controller configuration are not modelled. */
module SdCard {
  import opened Wrappers

  /** SD commands and their indices. */
  datatype Cmd = Cmd0 | Cmd8 | Cmd9 | Cmd10 | Cmd12 | Cmd16 | Cmd17 | Cmd18
               | Acmd23 | Cmd24 | Cmd25 | Acmd41 | Cmd55 | Cmd58 | Cmd59

  function Code(cmd: Cmd): (r: bv8)
    ensures r < 64
  {
    match cmd
    case Cmd0 => 0 case Cmd8 => 8 case Cmd9 => 9 case Cmd10 => 10
    case Cmd12 => 12 case Cmd16 => 16 case Cmd17 => 17 case Cmd18 => 18
    case Acmd23 => 23 case Cmd24 => 24 case Cmd25 => 25 case Acmd41 => 41
    case Cmd55 => 55 case Cmd58 => 58 case Cmd59 => 59
  }

  const SEC_LEN: nat := 512
  /** Start tokens: single block read and write, and multiple block read,
      all 0xFE; multiple block write 0xFC. */
  const START_BLOCK: bv8 := 0xFE
  const START_MULTIPLE_WRITE: bv8 := 0xFC
  /** Reads `get_response` makes before giving up. */
  const RESPONSE_TIMEOUT: nat := 0x0FFF

  /** The first `k` bytes the card shifts out, an idle line reading 0xFF. */
  function Take(s: seq<bv8>, k: nat): (r: seq<bv8>)
    ensures |r| == k
  {
    if k <= |s| then s[..k] else s + seq(k - |s|, _ => 0xFF)
  }

  /** What is left to shift out after `k` reads. */
  function Drop(s: seq<bv8>, k: nat): seq<bv8>
  {
    if k <= |s| then s[k..] else []
  }

  /** The 32-bit big-endian value of four bytes. */
  function BigEndian32(b: seq<bv8>): bv32
    requires |b| == 4
  {
    (b[0] as bv32 << 24) | (b[1] as bv32 << 16) | (b[2] as bv32 << 8) | b[3] as bv32
  }

  /** `send_cmd`'s six bytes: the command index with the start bit clear
      and the transmission bit set, the argument big-endian, then the CRC
      byte (section 7.3.1.1 of the SD Physical Layer Simplified
      Specification). */
  function CmdFrame(cmd: Cmd, arg: bv32, crc: bv8): (f: seq<bv8>)
    ensures |f| == 6
  {
    [Code(cmd) | 0x40, (arg >> 24) as bv8, ((arg >> 16) & 0xFF) as bv8,
     ((arg >> 8) & 0xFF) as bv8, (arg & 0xFF) as bv8, crc]
  }

  /** The card reads back from a frame the command index, the argument
      and the CRC it was built from. */
  lemma CmdFrameFields(cmd: Cmd, arg: bv32, crc: bv8)
    ensures var f := CmdFrame(cmd, arg, crc);
      f[0] & 0xC0 == 0x40 && f[0] & 0x3F == Code(cmd) &&
      BigEndian32(f[1..5]) == arg && f[5] == crc
  {
    var f := CmdFrame(cmd, arg, crc);
    CommandByte(Code(cmd));
    ArgumentBytes(arg);
    assert f[1..5] == [(arg >> 24) as bv8, ((arg >> 16) & 0xFF) as bv8, ((arg >> 8) & 0xFF) as bv8, (arg & 0xFF) as bv8];
  }

  lemma CommandByte(code: bv8)
    requires code < 64
    ensures (code | 0x40) & 0xC0 == 0x40 && (code | 0x40) & 0x3F == code
  {
  }

  lemma ArgumentBytes(arg: bv32)
    ensures BigEndian32([(arg >> 24) as bv8, ((arg >> 16) & 0xFF) as bv8, ((arg >> 8) & 0xFF) as bv8, (arg & 0xFF) as bv8]) == arg
  {
  }

  /** `get_response`: up to `timeout` reads; the first byte other than
      0xFF is the response, and 0xFF means none came. Also what is left to
      read. */
  function Response(s: seq<bv8>, timeout: nat): (bv8, seq<bv8>)
  {
    if timeout == 0 then (0xFF, s)
    else
      var b := Take(s, 1)[0];
      if b != 0xFF then (b, Drop(s, 1)) else Response(Drop(s, 1), timeout - 1)
  }

  /** The response is the first non-idle byte among the first `timeout`
      bytes, there is one exactly when such a byte exists, and the reads
      consume the bytes up to it and nothing after. */
  lemma ResponseIsFirstNonIdle(s: seq<bv8>, timeout: nat)
    ensures var (r, rest) := Response(s, timeout);
      |rest| <= |s| && rest == s[|s| - |rest|..] &&
      (r != 0xFF <==> exists k :: 0 <= k < timeout && k < |s| && s[k] != 0xFF) &&
      (r != 0xFF ==> (var n := |s| - |rest|;
        (1 <= n <= timeout && s[n - 1] == r && forall j :: 0 <= j < n - 1 ==> s[j] == 0xFF)))
  {
    ResponseConsumes(s, timeout);
    ResponseFound(s, timeout);
  }

  lemma {:induction false} ResponseConsumes(s: seq<bv8>, timeout: nat)
    ensures var (r, rest) := Response(s, timeout);
      |rest| <= |s| && rest == s[|s| - |rest|..] &&
      (r != 0xFF ==> (var n := |s| - |rest|;
        (1 <= n <= timeout && s[n - 1] == r && forall j :: 0 <= j < n - 1 ==> s[j] == 0xFF)))
  {
    if timeout == 0 {
    } else if |s| == 0 {
      ResponseConsumes(s, timeout - 1);
      assert Response(s, timeout) == Response(s, timeout - 1);
    } else if s[0] != 0xFF {
    } else {
      ResponseConsumes(s[1..], timeout - 1);
      assert Response(s, timeout) == Response(s[1..], timeout - 1);
    }
  }

  lemma {:induction false} ResponseFound(s: seq<bv8>, timeout: nat)
    ensures Response(s, timeout).0 != 0xFF <==> exists k :: 0 <= k < timeout && k < |s| && s[k] != 0xFF
  {
    if timeout == 0 {
    } else if |s| == 0 {
      ResponseFound(s, timeout - 1);
      assert Response(s, timeout) == Response(s, timeout - 1);
    } else if s[0] != 0xFF {
    } else {
      ResponseFound(s[1..], timeout - 1);
      assert Response(s, timeout) == Response(s[1..], timeout - 1);
      if Response(s[1..], timeout - 1).0 != 0xFF {
        var k :| 0 <= k < timeout - 1 && k < |s[1..]| && s[1..][k] != 0xFF;
        assert s[k + 1] != 0xFF;
      } else {
        forall k | 0 <= k < timeout && k < |s|
          ensures s[k] == 0xFF
        {
          if k > 0 {
            assert s[1..][k - 1] == s[k];
          }
        }
      }
    }
  }

  /** The busy wait after an accepted data response: zero bytes while the
      card is busy, then one more read. */
  function SkipBusy(s: seq<bv8>): seq<bv8>
  {
    if |s| == 0 then [] else if s[0] == 0 then SkipBusy(s[1..]) else s[1..]
  }

  /** `get_dataresponse`: 0 when the card accepted the data block (the
      low five bits of its token are 0x05) after it stops being busy, and
      0xFF otherwise. */
  function DataResponse(s: seq<bv8>): (bv8, seq<bv8>)
  {
    if Take(s, 1)[0] & 0x1F != 0x05 then (0xFF, Drop(s, 1))
    else (0, SkipBusy(Drop(s, 1)))
  }

  /** A data response token is `xxx0sss1`; the mask test accepts exactly
      status `010`, "data accepted" (section 7.3.3.1 of the SD Physical
      Layer Simplified Specification). */
  lemma DataAcceptedToken(b: bv8)
    ensures b & 0x1F == 0x05 <==> (b & 0x10 == 0 && (b >> 1) & 0x07 == 0x02 && b & 0x01 == 1)
  {
  }

  /** The card replied to a register read (CMD9, CMD10): R1 0x00, a start
      token 0xFE and then 18 bytes (16 register bytes and the CRC). */
  function RegisterRead(s: seq<bv8>): (Option<seq<bv8>>, seq<bv8>)
  {
    var (a, s1) := Response(s, RESPONSE_TIMEOUT);
    if a != 0 then (None, s1)
    else
      var (b, s2) := Response(s1, RESPONSE_TIMEOUT);
      if b != START_BLOCK then (None, s2) else (Some(Take(s2, 18)), Drop(s2, 18))
  }

  /** The first 16 bytes of a register as one 128-bit value, byte 0 the
      most significant (bits 127..120). */
  function Register(tab: seq<bv8>): bv128
    requires |tab| >= 16
  {
    (tab[0] as bv128 << 120) | (tab[1] as bv128 << 112) | (tab[2] as bv128 << 104) |
    (tab[3] as bv128 << 96) | (tab[4] as bv128 << 88) | (tab[5] as bv128 << 80) |
    (tab[6] as bv128 << 72) | (tab[7] as bv128 << 64) | (tab[8] as bv128 << 56) |
    (tab[9] as bv128 << 48) | (tab[10] as bv128 << 40) | (tab[11] as bv128 << 32) |
    (tab[12] as bv128 << 24) | (tab[13] as bv128 << 16) | (tab[14] as bv128 << 8) |
    tab[15] as bv128
  }

  /** Bits [lo + width - 1 : lo] of a register, in the bit numbering of
      the SD specification's register tables. */
  function Bits(reg: bv128, lo: bv8, width: bv8): bv128
    requires lo <= 128 && width <= 128 - lo
  {
    (reg >> lo) & ((1 as bv128 << width) - 1)
  }

  /** `SDCardCSD`. */
  datatype Csd = Csd(
    csdStruct: bv8, sysSpecVersion: bv8, reserved1: bv8, taac: bv8, nsac: bv8,
    maxBusClkFrec: bv8, cardComdClasses: bv16, rdBlockLen: bv8, partBlockRead: bv8,
    wrBlockMisalign: bv8, rdBlockMisalign: bv8, dsrImpl: bv8, reserved2: bv8,
    deviceSize: bv32, eraseGrSize: bv8, eraseGrMul: bv8, wrProtectGrSize: bv8,
    wrProtectGrEnable: bv8, manDeflEcc: bv8, wrSpeedFact: bv8, maxWrBlockLen: bv8,
    writeBlockPaPartial: bv8, reserved3: bv8, contentProtectAppli: bv8,
    fileFormatGroup: bv8, copyFlag: bv8, permWrProtect: bv8, tempWrProtect: bv8,
    fileFormat: bv8, ecc: bv8, csdCrc: bv8, reserved4: bv8)

  /** The CSD decoding of `get_csdregister`: every field by mask and
      shift of fixed bytes. */
  function DecodeCsd(tab: seq<bv8>): (c: Csd)
    requires |tab| >= 16
  {
    Csd(
      (tab[0] & 0xC0) >> 6, (tab[0] & 0x3C) >> 2, tab[0] & 0x03,
      tab[1], tab[2], tab[3],
      (tab[4] as bv16 << 4) | ((tab[5] as bv16 & 0xF0) >> 4),
      tab[5] & 0x0F,
      (tab[6] & 0x80) >> 7, (tab[6] & 0x40) >> 6, (tab[6] & 0x20) >> 5, (tab[6] & 0x10) >> 4,
      0,
      ((tab[7] as bv32 & 0x3F) << 16) | (tab[8] as bv32 << 8) | tab[9] as bv32,
      (tab[10] & 0x40) >> 6,
      ((tab[10] & 0x3F) << 1) | ((tab[11] & 0x80) >> 7),
      tab[11] & 0x7F,
      (tab[12] & 0x80) >> 7, (tab[12] & 0x60) >> 5, (tab[12] & 0x1C) >> 2,
      ((tab[12] & 0x03) << 2) | ((tab[13] & 0xC0) >> 6),
      (tab[13] & 0x20) >> 5,
      0,
      tab[13] & 0x01,
      (tab[14] & 0x80) >> 7, (tab[14] & 0x40) >> 6, (tab[14] & 0x20) >> 5, (tab[14] & 0x10) >> 4,
      (tab[14] & 0x0C) >> 2, tab[14] & 0x03,
      (tab[15] & 0xFE) >> 1,
      1)
  }

  lemma CsdStructure(tab: seq<bv8>)
    requires |tab| >= 16
    ensures DecodeCsd(tab).csdStruct as bv128 == Bits(Register(tab), 126, 2)
  {
  }

  lemma CsdTaac(tab: seq<bv8>)
    requires |tab| >= 16
    ensures DecodeCsd(tab).taac as bv128 == Bits(Register(tab), 112, 8)
  {
  }

  lemma CsdNsac(tab: seq<bv8>)
    requires |tab| >= 16
    ensures DecodeCsd(tab).nsac as bv128 == Bits(Register(tab), 104, 8)
  {
  }

  lemma CsdMaxBusClkFrec(tab: seq<bv8>)
    requires |tab| >= 16
    ensures DecodeCsd(tab).maxBusClkFrec as bv128 == Bits(Register(tab), 96, 8)
  {
  }

  lemma CsdCardComdClasses(tab: seq<bv8>)
    requires |tab| >= 16
    ensures DecodeCsd(tab).cardComdClasses as bv128 == Bits(Register(tab), 84, 12)
  {
  }

  lemma CsdRdBlockLen(tab: seq<bv8>)
    requires |tab| >= 16
    ensures DecodeCsd(tab).rdBlockLen as bv128 == Bits(Register(tab), 80, 4)
  {
  }

  lemma CsdPartBlockRead(tab: seq<bv8>)
    requires |tab| >= 16
    ensures DecodeCsd(tab).partBlockRead as bv128 == Bits(Register(tab), 79, 1)
  {
  }

  lemma CsdWrBlockMisalign(tab: seq<bv8>)
    requires |tab| >= 16
    ensures DecodeCsd(tab).wrBlockMisalign as bv128 == Bits(Register(tab), 78, 1)
  {
  }

  lemma CsdRdBlockMisalign(tab: seq<bv8>)
    requires |tab| >= 16
    ensures DecodeCsd(tab).rdBlockMisalign as bv128 == Bits(Register(tab), 77, 1)
  {
  }

  lemma CsdDsrImpl(tab: seq<bv8>)
    requires |tab| >= 16
    ensures DecodeCsd(tab).dsrImpl as bv128 == Bits(Register(tab), 76, 1)
  {
  }

  lemma CsdDeviceSize(tab: seq<bv8>)
    requires |tab| >= 16
    ensures DecodeCsd(tab).deviceSize as bv128 == Bits(Register(tab), 48, 22)
  {
  }

  lemma CsdEraseGrSize(tab: seq<bv8>)
    requires |tab| >= 16
    ensures DecodeCsd(tab).eraseGrSize as bv128 == Bits(Register(tab), 46, 1)
  {
  }

  lemma CsdEraseGrMul(tab: seq<bv8>)
    requires |tab| >= 16
    ensures DecodeCsd(tab).eraseGrMul as bv128 == Bits(Register(tab), 39, 7)
  {
  }

  lemma CsdWrProtectGrSize(tab: seq<bv8>)
    requires |tab| >= 16
    ensures DecodeCsd(tab).wrProtectGrSize as bv128 == Bits(Register(tab), 32, 7)
  {
  }

  lemma CsdWrProtectGrEnable(tab: seq<bv8>)
    requires |tab| >= 16
    ensures DecodeCsd(tab).wrProtectGrEnable as bv128 == Bits(Register(tab), 31, 1)
  {
  }

  lemma CsdWrSpeedFact(tab: seq<bv8>)
    requires |tab| >= 16
    ensures DecodeCsd(tab).wrSpeedFact as bv128 == Bits(Register(tab), 26, 3)
  {
  }

  lemma CsdMaxWrBlockLen(tab: seq<bv8>)
    requires |tab| >= 16
    ensures DecodeCsd(tab).maxWrBlockLen as bv128 == Bits(Register(tab), 22, 4)
  {
  }

  lemma CsdWriteBlockPaPartial(tab: seq<bv8>)
    requires |tab| >= 16
    ensures DecodeCsd(tab).writeBlockPaPartial as bv128 == Bits(Register(tab), 21, 1)
  {
  }

  lemma CsdFileFormatGroup(tab: seq<bv8>)
    requires |tab| >= 16
    ensures DecodeCsd(tab).fileFormatGroup as bv128 == Bits(Register(tab), 15, 1)
  {
  }

  lemma CsdCopyFlag(tab: seq<bv8>)
    requires |tab| >= 16
    ensures DecodeCsd(tab).copyFlag as bv128 == Bits(Register(tab), 14, 1)
  {
  }

  lemma CsdPermWrProtect(tab: seq<bv8>)
    requires |tab| >= 16
    ensures DecodeCsd(tab).permWrProtect as bv128 == Bits(Register(tab), 13, 1)
  {
  }

  lemma CsdTempWrProtect(tab: seq<bv8>)
    requires |tab| >= 16
    ensures DecodeCsd(tab).tempWrProtect as bv128 == Bits(Register(tab), 12, 1)
  {
  }

  lemma CsdFileFormat(tab: seq<bv8>)
    requires |tab| >= 16
    ensures DecodeCsd(tab).fileFormat as bv128 == Bits(Register(tab), 10, 2)
  {
  }

  lemma CsdCrc(tab: seq<bv8>)
    requires |tab| >= 16
    ensures DecodeCsd(tab).csdCrc as bv128 == Bits(Register(tab), 1, 7)
  {
  }

  lemma CsdSysSpecVersion(tab: seq<bv8>)
    requires |tab| >= 16
    ensures DecodeCsd(tab).sysSpecVersion as bv128 == Bits(Register(tab), 122, 4)
  {
  }

  lemma CsdReserved1(tab: seq<bv8>)
    requires |tab| >= 16
    ensures DecodeCsd(tab).reserved1 as bv128 == Bits(Register(tab), 120, 2)
  {
  }

  lemma CsdManDeflEcc(tab: seq<bv8>)
    requires |tab| >= 16
    ensures DecodeCsd(tab).manDeflEcc as bv128 == Bits(Register(tab), 29, 2)
  {
  }

  lemma CsdContentProtectAppli(tab: seq<bv8>)
    requires |tab| >= 16
    ensures DecodeCsd(tab).contentProtectAppli as bv128 == Bits(Register(tab), 16, 1)
  {
  }

  lemma CsdEcc(tab: seq<bv8>)
    requires |tab| >= 16
    ensures DecodeCsd(tab).ecc as bv128 == Bits(Register(tab), 8, 2)
  {
  }

  /** Each CSD field is the bit range of the register that the version 2.0
      layout (section 5.3.3 of the SD Physical Layer Simplified
      Specification) gives it; `device_size` is the 22-bit C_SIZE.
      `sys_spec_version` (bits 125..122), `reserved1` (121..120),
      `man_defl_ecc` (30..29), `content_protect_appli` (16) and `ecc`
      (9..8) are decoded from bits that layout reserves, where the
      MultiMediaCard CSD has fields of those names. The other reserved
      fields are constants. */
  lemma CsdMatchesLayout(tab: seq<bv8>)
    requires |tab| >= 16
    ensures var c := DecodeCsd(tab); var reg := Register(tab);
      c.csdStruct as bv128 == Bits(reg, 126, 2) &&
      c.sysSpecVersion as bv128 == Bits(reg, 122, 4) &&
      c.reserved1 as bv128 == Bits(reg, 120, 2) &&
      c.taac as bv128 == Bits(reg, 112, 8) &&
      c.nsac as bv128 == Bits(reg, 104, 8) &&
      c.maxBusClkFrec as bv128 == Bits(reg, 96, 8) &&
      c.cardComdClasses as bv128 == Bits(reg, 84, 12) &&
      c.rdBlockLen as bv128 == Bits(reg, 80, 4) &&
      c.partBlockRead as bv128 == Bits(reg, 79, 1) &&
      c.wrBlockMisalign as bv128 == Bits(reg, 78, 1) &&
      c.rdBlockMisalign as bv128 == Bits(reg, 77, 1) &&
      c.dsrImpl as bv128 == Bits(reg, 76, 1) &&
      c.deviceSize as bv128 == Bits(reg, 48, 22) &&
      c.eraseGrSize as bv128 == Bits(reg, 46, 1) &&
      c.eraseGrMul as bv128 == Bits(reg, 39, 7) &&
      c.wrProtectGrSize as bv128 == Bits(reg, 32, 7) &&
      c.wrProtectGrEnable as bv128 == Bits(reg, 31, 1) &&
      c.manDeflEcc as bv128 == Bits(reg, 29, 2) &&
      c.wrSpeedFact as bv128 == Bits(reg, 26, 3) &&
      c.maxWrBlockLen as bv128 == Bits(reg, 22, 4) &&
      c.writeBlockPaPartial as bv128 == Bits(reg, 21, 1) &&
      c.contentProtectAppli as bv128 == Bits(reg, 16, 1) &&
      c.fileFormatGroup as bv128 == Bits(reg, 15, 1) &&
      c.copyFlag as bv128 == Bits(reg, 14, 1) &&
      c.permWrProtect as bv128 == Bits(reg, 13, 1) &&
      c.tempWrProtect as bv128 == Bits(reg, 12, 1) &&
      c.fileFormat as bv128 == Bits(reg, 10, 2) &&
      c.ecc as bv128 == Bits(reg, 8, 2) &&
      c.csdCrc as bv128 == Bits(reg, 1, 7)
    ensures DecodeCsd(tab).reserved2 == 0 && DecodeCsd(tab).reserved3 == 0 && DecodeCsd(tab).reserved4 == 1
  {
    CsdStructure(tab);
    CsdSysSpecVersion(tab);
    CsdReserved1(tab);
    CsdTaac(tab);
    CsdNsac(tab);
    CsdMaxBusClkFrec(tab);
    CsdCardComdClasses(tab);
    CsdRdBlockLen(tab);
    CsdPartBlockRead(tab);
    CsdWrBlockMisalign(tab);
    CsdRdBlockMisalign(tab);
    CsdDsrImpl(tab);
    CsdDeviceSize(tab);
    CsdEraseGrSize(tab);
    CsdEraseGrMul(tab);
    CsdWrProtectGrSize(tab);
    CsdWrProtectGrEnable(tab);
    CsdManDeflEcc(tab);
    CsdWrSpeedFact(tab);
    CsdMaxWrBlockLen(tab);
    CsdWriteBlockPaPartial(tab);
    CsdContentProtectAppli(tab);
    CsdFileFormatGroup(tab);
    CsdCopyFlag(tab);
    CsdPermWrProtect(tab);
    CsdTempWrProtect(tab);
    CsdFileFormat(tab);
    CsdEcc(tab);
    CsdCrc(tab);
  }

  /** `SDCardCID`. */
  datatype Cid = Cid(
    manufacturerId: bv8, oemAppliId: bv16, prodName1: bv32, prodName2: bv8,
    prodRev: bv8, prodSn: bv32, reserved1: bv8, manufactDate: bv16, cidCrc: bv8,
    reserved2: bv8)

  /** The CID decoding of `get_cidregister`: multi-byte fields assembled
      big-endian. */
  function DecodeCid(tab: seq<bv8>): (c: Cid)
    requires |tab| >= 16
  {
    Cid(
      tab[0],
      (tab[1] as bv16 << 8) | tab[2] as bv16,
      (tab[3] as bv32 << 24) | (tab[4] as bv32 << 16) | (tab[5] as bv32 << 8) | tab[6] as bv32,
      tab[7], tab[8],
      (tab[9] as bv32 << 24) | (tab[10] as bv32 << 16) | (tab[11] as bv32 << 8) | tab[12] as bv32,
      (tab[13] & 0xF0) >> 4,
      ((tab[13] as bv16 & 0x0F) << 8) | tab[14] as bv16,
      (tab[15] & 0xFE) >> 1,
      1)
  }

  lemma CidManufacturerId(tab: seq<bv8>)
    requires |tab| >= 16
    ensures DecodeCid(tab).manufacturerId as bv128 == Bits(Register(tab), 120, 8)
  {
  }

  lemma CidOemAppliId(tab: seq<bv8>)
    requires |tab| >= 16
    ensures DecodeCid(tab).oemAppliId as bv128 == Bits(Register(tab), 104, 16)
  {
  }

  lemma CidProdName1(tab: seq<bv8>)
    requires |tab| >= 16
    ensures DecodeCid(tab).prodName1 as bv128 == Bits(Register(tab), 72, 32)
  {
  }

  lemma CidProdName2(tab: seq<bv8>)
    requires |tab| >= 16
    ensures DecodeCid(tab).prodName2 as bv128 == Bits(Register(tab), 64, 8)
  {
  }

  lemma CidProdRev(tab: seq<bv8>)
    requires |tab| >= 16
    ensures DecodeCid(tab).prodRev as bv128 == Bits(Register(tab), 56, 8)
  {
  }

  lemma CidProdSn(tab: seq<bv8>)
    requires |tab| >= 16
    ensures DecodeCid(tab).prodSn as bv128 == Bits(Register(tab), 24, 32)
  {
  }

  lemma CidReserved1(tab: seq<bv8>)
    requires |tab| >= 16
    ensures DecodeCid(tab).reserved1 as bv128 == Bits(Register(tab), 20, 4)
  {
  }

  lemma CidManufactDate(tab: seq<bv8>)
    requires |tab| >= 16
    ensures DecodeCid(tab).manufactDate as bv128 == Bits(Register(tab), 8, 12)
  {
  }

  lemma CidCrc(tab: seq<bv8>)
    requires |tab| >= 16
    ensures DecodeCid(tab).cidCrc as bv128 == Bits(Register(tab), 1, 7)
  {
  }

  /** Each CID field is the bit range of the register that section 5.2 of
      the SD Physical Layer Simplified Specification gives it: the OEM id, the product name and serial number big-endian,
      the manufacturing date 12 bits. */
  lemma CidMatchesLayout(tab: seq<bv8>)
    requires |tab| >= 16
    ensures var c := DecodeCid(tab); var reg := Register(tab);
      c.manufacturerId as bv128 == Bits(reg, 120, 8) &&
      c.oemAppliId as bv128 == Bits(reg, 104, 16) &&
      c.prodName1 as bv128 == Bits(reg, 72, 32) &&
      c.prodName2 as bv128 == Bits(reg, 64, 8) &&
      c.prodRev as bv128 == Bits(reg, 56, 8) &&
      c.prodSn as bv128 == Bits(reg, 24, 32) &&
      c.reserved1 as bv128 == Bits(reg, 20, 4) &&
      c.manufactDate as bv128 == Bits(reg, 8, 12) &&
      c.cidCrc as bv128 == Bits(reg, 1, 7)
    ensures DecodeCid(tab).reserved2 == 1
  {
    CidManufacturerId(tab);
    CidOemAppliId(tab);
    CidProdName1(tab);
    CidProdName2(tab);
    CidProdRev(tab);
    CidProdSn(tab);
    CidReserved1(tab);
    CidManufactDate(tab);
    CidCrc(tab);
  }

  /** `SDCardInfo`. */
  datatype CardInfo = CardInfo(csd: Csd, cid: Cid, cardCapacity: nat, cardBlockSize: nat)

  function Pow2(n: nat): (r: nat)
    ensures r >= 1
  {
    if n == 0 then 1 else 2 * Pow2(n - 1)
  }

  lemma {:induction false} Pow2Monotone(m: nat, n: nat)
    requires m <= n
    ensures Pow2(m) <= Pow2(n)
    decreases n
  {
    if m < n {
      Pow2Monotone(m, n - 1);
    }
  }

  /** `get_cardinfo`: the block size is `1 << rd_block_len` and the
      capacity (C_SIZE + 1) * 1024 blocks of that size, computed in `u64`;
      the model computes them unbounded and proves below that they fit. */
  function MakeCardInfo(csd: Csd, cid: Cid): CardInfo
  {
    var blockSize := Pow2(csd.rdBlockLen as nat);
    CardInfo(csd, cid, (csd.deviceSize as nat + 1) * 1024 * blockSize, blockSize)
  }

  /** A decoded CSD's READ_BL_LEN has four bits and its C_SIZE 22. */
  lemma DecodedCsdWidths(tab: seq<bv8>)
    requires |tab| >= 16
    ensures DecodeCsd(tab).rdBlockLen <= 15 && DecodeCsd(tab).deviceSize < 0x40_0000
  {
  }

  /** A four-bit READ_BL_LEN read as a number. */
  lemma SmallBlockLength(len: bv8)
    requires len <= 15
    ensures len as nat <= 15 && (len == 9 <==> len as nat == 9)
  {
    if len < 8 {
      if len < 4 {
        if len < 2 { if len == 0 {} else { assert len == 1; } }
        else { if len == 2 {} else { assert len == 3; } }
      } else {
        if len < 6 { if len == 4 {} else { assert len == 5; } }
        else { if len == 6 {} else { assert len == 7; } }
      }
    } else {
      if len < 12 {
        if len < 10 { if len == 8 {} else { assert len == 9; } }
        else { if len == 10 {} else { assert len == 11; } }
      } else {
        if len < 14 { if len == 12 {} else { assert len == 13; } }
        else { if len == 14 {} else { assert len == 15; } }
      }
    }
  }

  /** For any CSD whose READ_BL_LEN has the four bits of a decoded one:
      the block size is at most 32 KiB; the capacity is below 2^57 bytes,
      so the `u64` arithmetic of the driver does not wrap; and the card
      has at least two 512-byte sectors, so the assertion in the driver's
      `init` holds. */
  lemma CardInfoBounds(csd: Csd, cid: Cid)
    requires csd.rdBlockLen <= 15
    ensures var info := MakeCardInfo(csd, cid);
      info.cardBlockSize <= 0x8000 && info.cardCapacity <= 0x200_0000_0000_0000 &&
      info.cardCapacity / SEC_LEN >= 2
  {
    var size, len := csd.deviceSize as nat, csd.rdBlockLen as nat;
    SmallBlockLength(csd.rdBlockLen);
    CapacityBounds(size, len);
  }

  /** With the 512-byte READ_BL_LEN of a version 2.0 CSD the capacity is
      (C_SIZE + 1) * 512 KiB (section 5.3.3 of the SD Physical Layer
      Simplified Specification). */
  lemma CardInfoVersion2(csd: Csd, cid: Cid)
    requires csd.rdBlockLen == 9
    ensures MakeCardInfo(csd, cid).cardCapacity == (csd.deviceSize as nat + 1) * 512 * 1024
  {
    SmallBlockLength(csd.rdBlockLen);
    CapacityBounds(csd.deviceSize as nat, csd.rdBlockLen as nat);
  }

  /** `CardInfoBounds` on the numbers. */
  lemma CapacityBounds(size: nat, len: nat)
    requires size < 0x1_0000_0000 && len <= 15
    ensures var bs := Pow2(len);
      bs <= 0x8000 && (size + 1) * 1024 * bs <= 0x200_0000_0000_0000 &&
      (size + 1) * 1024 * bs / SEC_LEN >= 2 &&
      (len == 9 ==> (size + 1) * 1024 * bs == (size + 1) * 512 * 1024)
  {
    BlockSizeBound(len);
    CapacityArithmetic(size, Pow2(len));
  }

  lemma BlockSizeBound(len: nat)
    requires len <= 15
    ensures Pow2(len) <= 0x8000 && (len == 9 ==> Pow2(len) == 512)
  {
    Pow2Monotone(len, 15);
    assert Pow2(0) == 1;
    assert Pow2(1) == 2;
    assert Pow2(2) == 4;
    assert Pow2(3) == 8;
    assert Pow2(4) == 16;
    assert Pow2(5) == 32;
    assert Pow2(6) == 64;
    assert Pow2(7) == 128;
    assert Pow2(8) == 256;
    assert Pow2(9) == 512;
    assert Pow2(10) == 1024;
    assert Pow2(11) == 2048;
    assert Pow2(12) == 4096;
    assert Pow2(13) == 8192;
    assert Pow2(14) == 16384;
    assert Pow2(15) == 0x8000;
  }

  lemma CapacityArithmetic(size: nat, bs: nat)
    requires size < 0x1_0000_0000 && 1 <= bs <= 0x8000
    ensures (size + 1) * 1024 * bs <= 0x200_0000_0000_0000
    ensures (size + 1) * 1024 * bs / 512 >= 2
    ensures bs == 512 ==> (size + 1) * 1024 * bs == (size + 1) * 512 * 1024
  {
    var k := (size + 1) * 1024;
    assert 1024 <= k <= 0x400_0000_0000;
    MulMonotone(k, 0x400_0000_0000, bs, 0x8000);
    MulMonotone(1024, k, 1, bs);
  }

  lemma MulMonotone(a: nat, b: nat, c: nat, d: nat)
    requires a <= b && c <= d
    ensures a * c <= b * d
  {
    assert a * c <= b * c;
  }

  /** Every block of a multi-block read: the card's start token 0xFE
      (waited for as a response), 512 data bytes, and two CRC bytes that
      are read and dropped. Returns whether every token came, the data
      read, and what is left. */
  function ReadBlocks(s: seq<bv8>, count: nat): (bool, seq<bv8>, seq<bv8>)
    decreases count
  {
    if count == 0 then (true, [], s)
    else
      var (token, s1) := Response(s, RESPONSE_TIMEOUT);
      if token != START_BLOCK then (false, [], s1)
      else
        var (ok, data, rest) := ReadBlocks(Drop(Drop(s1, SEC_LEN), 2), count - 1);
        (ok, Take(s1, SEC_LEN) + data, rest)
  }

  /** What a card sends for `data`: per 512-byte block the start token,
      the block and two CRC bytes. */
  function BlockStream(data: seq<bv8>, crc: seq<bv8>): seq<bv8>
    requires |data| % SEC_LEN == 0 && |crc| == 2
    decreases |data|
  {
    if |data| == 0 then [] else [START_BLOCK] + data[..SEC_LEN] + crc + BlockStream(data[SEC_LEN..], crc)
  }

  /** Reading the blocks a card streams returns exactly their data and
      leaves what follows them. */
  lemma {:induction false} ReadBlocksOfBlockStream(data: seq<bv8>, crc: seq<bv8>, rest: seq<bv8>)
    requires |data| % SEC_LEN == 0 && |crc| == 2
    ensures ReadBlocks(BlockStream(data, crc) + rest, |data| / SEC_LEN) == (true, data, rest)
    decreases |data|
  {
    if |data| > 0 {
      var n := |data| / SEC_LEN;
      var tail := BlockStream(data[SEC_LEN..], crc) + rest;
      var s1 := data[..SEC_LEN] + crc + tail;
      var s := BlockStream(data, crc) + rest;
      assert s == [START_BLOCK] + s1;
      ResponseOfToken(s1);
      assert Take(s1, SEC_LEN) == data[..SEC_LEN];
      assert Drop(Drop(s1, SEC_LEN), 2) == tail;
      ReadBlocksOfBlockStream(data[SEC_LEN..], crc, rest);
      assert (|data| - SEC_LEN) / SEC_LEN == n - 1;
      assert ReadBlocks(tail, n - 1) == (true, data[SEC_LEN..], rest);
      assert ReadBlocks(s, n) == (true, data[..SEC_LEN] + data[SEC_LEN..], rest);
      assert data[..SEC_LEN] + data[SEC_LEN..] == data;
    } else {
      assert BlockStream(data, crc) + rest == rest;
    }
  }

  /** A card whose next byte is a response answers with it at once. */
  lemma ResponseOfToken(s: seq<bv8>)
    ensures Response([START_BLOCK] + s, RESPONSE_TIMEOUT) == (START_BLOCK, s)
    ensures Response([0x00] + s, RESPONSE_TIMEOUT) == (0x00, s)
  {
    assert Take([START_BLOCK] + s, 1) == [START_BLOCK];
    assert Drop([START_BLOCK] + s, 1) == s;
    assert Take([0x00] + s, 1) == [0x00];
    assert Drop([0x00] + s, 1) == s;
  }

  /** A result of `ReadBlocks` or `WriteBlocks` with `prefix` read or
      sent before it. */
  function Prepend(prefix: seq<bv8>, r: (bool, seq<bv8>, seq<bv8>)): (bool, seq<bv8>, seq<bv8>)
  {
    (r.0, prefix + r.1, r.2)
  }

  lemma WriteRejected(s0: seq<bv8>, out: seq<bv8>, frame: seq<bv8>, whole: (bool, seq<bv8>, seq<bv8>),
                      tail: (bool, seq<bv8>, seq<bv8>), rest: seq<bv8>)
    requires whole == Prepend(out, tail) && tail == (false, frame, rest)
    ensures whole == (false, out + frame, rest) && s0 + out + frame == s0 + (out + frame)
  {
  }

  lemma WriteAccepted(s0: seq<bv8>, out: seq<bv8>, frame: seq<bv8>, whole: (bool, seq<bv8>, seq<bv8>),
                      tail: (bool, seq<bv8>, seq<bv8>), next: (bool, seq<bv8>, seq<bv8>))
    requires whole == Prepend(out, tail) && tail == Prepend(frame, next)
    ensures whole == Prepend(out + frame, next) && s0 + out + frame == s0 + (out + frame)
  {
    assert out + (frame + next.1) == out + frame + next.1;
  }

  lemma WriteBlocksDone(s: seq<bv8>, left: seq<bv8>, token: bv8)
    requires |left| < SEC_LEN
    ensures WriteBlocks(s, left, token) == (true, [], s)
  {
  }

  /** A block the card did not start ends the read with what was read
      before it. */
  lemma ReadRejected(whole: (bool, seq<bv8>, seq<bv8>), got: seq<bv8>,
                     tail: (bool, seq<bv8>, seq<bv8>), rest: seq<bv8>)
    requires whole == Prepend(got, tail) && tail == (false, [], rest)
    ensures whole == (false, got, rest)
  {
    assert got + [] == got;
  }

  /** A block read adds to what was read before it. */
  lemma ReadAccepted(whole: (bool, seq<bv8>, seq<bv8>), got: seq<bv8>, chunk: seq<bv8>,
                     tail: (bool, seq<bv8>, seq<bv8>), next: (bool, seq<bv8>, seq<bv8>))
    requires whole == Prepend(got, tail) && tail == Prepend(chunk, next)
    ensures whole == Prepend(got + chunk, next)
  {
    assert got + (chunk + next.1) == got + chunk + next.1;
  }

  /** A buffer whose first part was filled, with the block copied in
      after that part. */
  lemma BufferStep(before: seq<bv8>, after: seq<bv8>, got: seq<bv8>, chunk: seq<bv8>, orig: seq<bv8>, off: nat)
    requires |got| == off && |chunk| == SEC_LEN && off + SEC_LEN <= |orig|
    requires before == got + orig[off..]
    requires after == before[..off] + chunk + before[off + SEC_LEN..]
    ensures after == (got + chunk) + orig[off + SEC_LEN..]
  {
    assert before[..off] == got;
    assert before[off + SEC_LEN..] == orig[off + SEC_LEN..];
  }

  /** A read with at most `count` blocks returns whole blocks, and all
      `count` of them when it succeeds. */
  lemma {:induction false} ReadBlocksShape(s: seq<bv8>, count: nat)
    ensures var (ok, data, _) := ReadBlocks(s, count);
      |data| % SEC_LEN == 0 && |data| <= count * SEC_LEN && (ok ==> |data| == count * SEC_LEN)
    decreases count
  {
    if count > 0 {
      var (token, s1) := Response(s, RESPONSE_TIMEOUT);
      if token == START_BLOCK {
        ReadBlocksShape(Drop(Drop(s1, SEC_LEN), 2), count - 1);
      }
    }
  }

  /** `read_sector` after its command frame, for a buffer of `len` bytes:
      the R1 response, the blocks, and for several sectors CMD12 to stop
      the transfer. Returns whether it succeeded, the blocks read (those
      before a missing start token on failure), what is left to read and
      the bytes sent after the command frame. */
  function ReadAfterCommand(s: seq<bv8>, len: nat): (bool, seq<bv8>, seq<bv8>, seq<bv8>)
    requires len >= SEC_LEN && len % SEC_LEN == 0
  {
    var (r1, s1) := Response(s, RESPONSE_TIMEOUT);
    if r1 != 0 then (false, [], s1, [0xFF])
    else
      var (ok, data, s2) := ReadBlocks(s1, len / SEC_LEN);
      if len == SEC_LEN then (ok, data, s2, [0xFF])
      else (ok, data, Response(s2, RESPONSE_TIMEOUT).1, [0xFF] + CmdFrame(Cmd12, 0, 0) + [0xFF, 0xFF])
  }

  /** The read command: CMD17 for one sector, CMD18 for several. */
  function ReadCommand(len: nat): Cmd
  {
    if len == SEC_LEN then Cmd17 else Cmd18
  }

  /** `read_sector` on the bus. */
  function SectorRead(s: seq<bv8>, len: nat, sector: bv32): (r: (bool, seq<bv8>, seq<bv8>, seq<bv8>))
    requires len >= SEC_LEN && len % SEC_LEN == 0
    ensures |r.1| % SEC_LEN == 0 && |r.1| <= len && (r.0 ==> |r.1| == len)
  {
    var (ok, data, rest, out) := ReadAfterCommand(s, len);
    ReadBlocksShape(Response(s, RESPONSE_TIMEOUT).1, len / SEC_LEN);
    (ok, data, rest, CmdFrame(ReadCommand(len), sector, 0) + out)
  }

  /** A card that acknowledges the read and streams the blocks gives back
      exactly their data; one sector is read with CMD17 and nothing else
      is sent but the closing 0xFF; several with CMD18, and the transfer is
      stopped with CMD12. */
  lemma SectorReadOfReadyCard(data: seq<bv8>, crc: seq<bv8>, rest: seq<bv8>, sector: bv32)
    requires |data| >= SEC_LEN && |data| % SEC_LEN == 0 && |crc| == 2
    ensures var (ok, read, _, out) := SectorRead([0x00] + BlockStream(data, crc) + rest, |data|, sector);
      ok && read == data &&
      (|data| == SEC_LEN ==> out == CmdFrame(Cmd17, sector, 0) + [0xFF]) &&
      (|data| > SEC_LEN ==> out == CmdFrame(Cmd18, sector, 0) + ([0xFF] + CmdFrame(Cmd12, 0, 0) + [0xFF, 0xFF]))
  {
    var s1 := BlockStream(data, crc) + rest;
    assert [0x00] + BlockStream(data, crc) + rest == [0x00] + s1;
    ResponseOfToken(s1);
    ReadBlocksOfBlockStream(data, crc, rest);
    var after := ReadAfterCommand([0x00] + s1, |data|);
    assert after.0 && after.1 == data;
  }

  /** A card that does not acknowledge the command: the read fails, no
      data is read and the command is closed with a single 0xFF. */
  lemma SectorReadRejected(s: seq<bv8>, len: nat, sector: bv32)
    requires len >= SEC_LEN && len % SEC_LEN == 0 && Response(s, RESPONSE_TIMEOUT).0 != 0
    ensures var (ok, read, rest, out) := SectorRead(s, len, sector);
      !ok && read == [] && rest == Response(s, RESPONSE_TIMEOUT).1 &&
      out == CmdFrame(ReadCommand(len), sector, 0) + [0xFF]
  {
  }

  /** Each block a write sends: 0xFF, the start token, the block, and two
      dummy CRC bytes. */
  function Framed(data: seq<bv8>, token: bv8): (out: seq<bv8>)
    requires |data| % SEC_LEN == 0
    decreases |data|
  {
    if |data| == 0 then [] else [0xFF, token] + data[..SEC_LEN] + [0xFF, 0xFF] + Framed(data[SEC_LEN..], token)
  }

  /** The card's view: the payload of each 516-byte frame. */
  function Unframe(out: seq<bv8>): seq<bv8>
    decreases |out|
  {
    if |out| < SEC_LEN + 4 then [] else out[2..SEC_LEN + 2] + Unframe(out[SEC_LEN + 4..])
  }

  /** Framing is undone by the card: it receives exactly the data. */
  lemma {:induction false} UnframeFramed(data: seq<bv8>, token: bv8)
    requires |data| % SEC_LEN == 0
    ensures |Framed(data, token)| == |data| / SEC_LEN * (SEC_LEN + 4)
    ensures Unframe(Framed(data, token)) == data
    decreases |data|
  {
    if |data| > 0 {
      var f := Framed(data, token);
      var head := [0xFF, token] + data[..SEC_LEN] + [0xFF, 0xFF];
      assert f == head + Framed(data[SEC_LEN..], token);
      UnframeFramed(data[SEC_LEN..], token);
      assert f[2..SEC_LEN + 2] == data[..SEC_LEN];
      assert f[SEC_LEN + 4..] == Framed(data[SEC_LEN..], token);
      assert data[..SEC_LEN] + data[SEC_LEN..] == data;
    }
  }

  /** The per-block loop of `write_sector`: send the frame, then wait for
      the data response; a rejected block ends the command (one more 0xFF)
      and the write. Returns whether all were accepted, the bytes sent and
      what is left to read. */
  function WriteBlocks(s: seq<bv8>, data: seq<bv8>, token: bv8): (bool, seq<bv8>, seq<bv8>)
    decreases |data|
  {
    if |data| < SEC_LEN then (true, [], s)
    else
      var frame := [0xFF, token] + data[..SEC_LEN] + [0xFF, 0xFF];
      var (dr, s1) := DataResponse(s);
      if dr != 0 then (false, frame + [0xFF], s1)
      else
        var (ok, out, rest) := WriteBlocks(s1, data[SEC_LEN..], token);
        (ok, frame + out, rest)
  }

  /** A card that accepts every block: per block the token 0x05 and one
      non-zero byte ending the busy period. */
  function Accepts(n: nat): seq<bv8>
  {
    if n == 0 then [] else [0x05, 0x01] + Accepts(n - 1)
  }

  /** When every block is accepted, the write succeeds, the bytes sent are
      the framed data and nothing else, and the card receives the data. */
  lemma {:induction false} WriteBlocksToAcceptingCard(data: seq<bv8>, token: bv8, rest: seq<bv8>)
    requires |data| % SEC_LEN == 0
    ensures WriteBlocks(Accepts(|data| / SEC_LEN) + rest, data, token) == (true, Framed(data, token), rest)
    ensures Unframe(Framed(data, token)) == data
    decreases |data|
  {
    UnframeFramed(data, token);
    if |data| > 0 {
      var n := |data| / SEC_LEN;
      assert (|data| - SEC_LEN) / SEC_LEN == n - 1;
      var tail := Accepts(n - 1) + rest;
      var s := Accepts(n) + rest;
      assert s == [0x05] + ([0x01] + tail);
      assert Take(s, 1)[0] == 0x05;
      assert Drop(s, 1) == [0x01] + tail;
      assert SkipBusy([0x01] + tail) == tail;
      assert DataResponse(s) == (0, tail);
      WriteBlocksToAcceptingCard(data[SEC_LEN..], token, rest);
      var frame := [0xFF, token] + data[..SEC_LEN] + [0xFF, 0xFF];
      assert WriteBlocks(s, data, token) == (true, frame + Framed(data[SEC_LEN..], token), rest);
    } else {
      assert Accepts(0) + rest == rest;
    }
  }

  /** `try_into` of a `usize` that fits in `u32`. */
  function U32(n: nat): (r: bv32)
    requires n < 0x1_0000_0000
  {
    n as bv32
  }

  /** `write_sector` after its command frames, for `data` and start token
      `token`: the R1 response, then the blocks; a failed R1 closes the
      command with one 0xFF, a completed write with two. Returns whether
      it succeeded, what is left to read and the bytes sent. */
  function WriteAfterCommand(s: seq<bv8>, data: seq<bv8>, token: bv8): (bool, seq<bv8>, seq<bv8>)
    requires |data| % SEC_LEN == 0
  {
    var (r1, s1) := Response(s, RESPONSE_TIMEOUT);
    if r1 != 0 then (false, s1, [0xFF])
    else
      var (ok, out, s2) := WriteBlocks(s1, data, token);
      (ok, s2, out + (if ok then [0xFF, 0xFF] else []))
  }

  /** `write_sector` on the bus: a sector count that does not fit in `u32`
      panics in `try_into().unwrap()`; several sectors wait for the
      response to ACMD23 before CMD25 and use start token 0xFC, one sector
      token 0xFE. Returns whether the write succeeded, what is left to read
      and the bytes sent. */
  function SectorWrite(s: seq<bv8>, data: seq<bv8>, sector: bv32): (r: Outcome<(bool, seq<bv8>, seq<bv8>)>)
    requires |data| >= SEC_LEN && |data| % SEC_LEN == 0
    ensures r.Panics? <==> |data| / SEC_LEN >= 0x1_0000_0000
  {
    var count := |data| / SEC_LEN;
    if count >= 0x1_0000_0000 then Panics
    else if count == 1 then
      var (ok, rest, out) := WriteAfterCommand(s, data, START_BLOCK);
      Returns((ok, rest, CmdFrame(Cmd24, sector, 0) + out))
    else
      var (ok, rest, out) := WriteAfterCommand(Response(s, RESPONSE_TIMEOUT).1, data, START_MULTIPLE_WRITE);
      Returns((ok, rest, CmdFrame(Acmd23, U32(count), 0) + [0xFF] + CmdFrame(Cmd25, sector, 0) + out))
  }

  /** How `SectorWrite` proceeds for one sector. */
  lemma SectorWriteOne(s: seq<bv8>, data: seq<bv8>, sector: bv32)
    requires |data| == SEC_LEN
    ensures var after := WriteAfterCommand(s, data, START_BLOCK);
      SectorWrite(s, data, sector) == Returns((after.0, after.1, CmdFrame(Cmd24, sector, 0) + after.2))
  {
  }

  /** How `SectorWrite` proceeds for several sectors. */
  lemma SectorWriteMany(s: seq<bv8>, data: seq<bv8>, sector: bv32)
    requires |data| > SEC_LEN && |data| % SEC_LEN == 0 && |data| / SEC_LEN < 0x1_0000_0000
    ensures var count := |data| / SEC_LEN;
      var after := WriteAfterCommand(Response(s, RESPONSE_TIMEOUT).1, data, START_MULTIPLE_WRITE);
      SectorWrite(s, data, sector) ==
        Returns((after.0, after.1, CmdFrame(Acmd23, U32(count), 0) + [0xFF] + CmdFrame(Cmd25, sector, 0) + after.2))
  {
    assert |data| / SEC_LEN != 1;
  }

  /** After the commands, a card that acknowledges and accepts every
      block takes the whole framed data, and the write is closed with two
      0xFF. */
  lemma WriteAfterCommandToAcceptingCard(data: seq<bv8>, token: bv8, rest: seq<bv8>)
    requires |data| % SEC_LEN == 0
    ensures WriteAfterCommand([0x00] + Accepts(|data| / SEC_LEN) + rest, data, token) ==
      (true, rest, Framed(data, token) + [0xFF, 0xFF])
  {
    var s1 := Accepts(|data| / SEC_LEN) + rest;
    assert [0x00] + Accepts(|data| / SEC_LEN) + rest == [0x00] + s1;
    ResponseOfToken(s1);
    WriteBlocksToAcceptingCard(data, token, rest);
  }

  /** A card that acknowledges the command and accepts the block of a
      one-sector write: the write succeeds, consumes exactly the card's
      replies, and sends CMD24, then the block framed with token 0xFE. */
  lemma SectorWriteOneToAcceptingCard(data: seq<bv8>, sector: bv32, rest: seq<bv8>)
    requires |data| == SEC_LEN
    ensures SectorWrite([0x00] + Accepts(1) + rest, data, sector) ==
      Returns((true, rest, CmdFrame(Cmd24, sector, 0) + (Framed(data, START_BLOCK) + [0xFF, 0xFF])))
  {
    WriteAfterCommandToAcceptingCard(data, START_BLOCK, rest);
  }

  /** A card that acknowledges both commands and accepts every block of a
      write of several sectors: the write succeeds, consumes exactly the
      card's replies, and sends ACMD23 with the sector count, CMD25, then
      the blocks framed with token 0xFC. */
  lemma SectorWriteManyToAcceptingCard(data: seq<bv8>, sector: bv32, rest: seq<bv8>)
    requires |data| > SEC_LEN && |data| % SEC_LEN == 0 && |data| / SEC_LEN < 0x1_0000_0000
    ensures var count := |data| / SEC_LEN;
      SectorWrite([0x00, 0x00] + Accepts(count) + rest, data, sector) ==
        Returns((true, rest, CmdFrame(Acmd23, U32(count), 0) + [0xFF] + CmdFrame(Cmd25, sector, 0) +
          (Framed(data, START_MULTIPLE_WRITE) + [0xFF, 0xFF])))
  {
    var count := |data| / SEC_LEN;
    var card := [0x00] + Accepts(count) + rest;
    var s := [0x00, 0x00] + Accepts(count) + rest;
    assert s == [0x00] + card;
    ResponseNow(0x00, card);
    SectorWriteMany(s, data, sector);
    WriteAfterCommandToAcceptingCard(data, START_MULTIPLE_WRITE, rest);
  }

  /** Bytes sent one after the other make one stream. */
  lemma AppendAssoc(a: seq<bv8>, b: seq<bv8>, c: seq<bv8>, d: seq<bv8>, e: seq<bv8>)
    ensures a + b + c + d + e == a + (b + c + d + e)
  {
  }

  lemma Append3(a: seq<bv8>, b: seq<bv8>, c: seq<bv8>)
    ensures a + b + c == a + (b + c)
  {
  }

  /** A result of `Acmd41Loop` with `prefix` sent before it. */
  function PrependAcmd41(prefix: seq<bv8>, r: (Acmd41End, seq<bv8>, seq<bv8>)): (Acmd41End, seq<bv8>, seq<bv8>)
  {
    (r.0, r.1, prefix + r.2)
  }

  /** A result of `OcrLoop` with `prefix` sent before it. */
  function Prepend4(prefix: seq<bv8>, r: (bool, seq<bv8>, seq<bv8>, seq<bv8>)): (bool, seq<bv8>, seq<bv8>, seq<bv8>)
  {
    (r.0, r.1, r.2, prefix + r.3)
  }

  /** The bytes one try of the ACMD41 loop sends: CMD55, and ACMD41 when
      CMD55 was answered with 0x01. */
  function Acmd41Sent(s: seq<bv8>): seq<bv8>
  {
    if Response(s, RESPONSE_TIMEOUT).0 != 0x01 then CmdFrame(Cmd55, 0, 0) + [0xFF]
    else CmdFrame(Cmd55, 0, 0) + [0xFF] + (CmdFrame(Acmd41, 0x4000_0000, 0) + [0xFF])
  }

  /** A try of the ACMD41 loop that ends it. */
  lemma Acmd41Stops(s0: seq<bv8>, out: seq<bv8>, s: seq<bv8>, index: nat,
                    whole: (Acmd41End, seq<bv8>, seq<bv8>), tail: (Acmd41End, seq<bv8>, seq<bv8>), rest: seq<bv8>)
    requires index > 0 && whole == PrependAcmd41(out, tail) && tail == Acmd41Loop(s, index)
    requires var (a, s1) := Response(s, RESPONSE_TIMEOUT);
      (a != 0x01 && rest == s1) || (a == 0x01 && Response(s1, RESPONSE_TIMEOUT) == (0x00, rest))
    ensures whole.1 == rest && s0 + out + Acmd41Sent(s) == s0 + whole.2
    ensures whole.0 == (var a := Response(s, RESPONSE_TIMEOUT).0; if a != 0x01 then Cmd55Failed(a) else Ready)
  {
    Append3(s0, out, Acmd41Sent(s));
  }

  /** A try of the ACMD41 loop after which it goes on. */
  lemma Acmd41Continues(s0: seq<bv8>, out: seq<bv8>, s: seq<bv8>, index: nat,
                        whole: (Acmd41End, seq<bv8>, seq<bv8>), tail: (Acmd41End, seq<bv8>, seq<bv8>), rest: seq<bv8>)
    requires index > 0 && whole == PrependAcmd41(out, tail) && tail == Acmd41Loop(s, index)
    requires var (a, s1) := Response(s, RESPONSE_TIMEOUT);
      a == 0x01 && Response(s1, RESPONSE_TIMEOUT).0 != 0x00 && Response(s1, RESPONSE_TIMEOUT).1 == rest
    ensures whole == PrependAcmd41(out + Acmd41Sent(s), Acmd41Loop(rest, index - 1))
    ensures s0 + out + Acmd41Sent(s) == s0 + (out + Acmd41Sent(s))
  {
    Append3(s0, out, Acmd41Sent(s));
    Append3(out, Acmd41Sent(s), Acmd41Loop(rest, index - 1).2);
  }

  /** A try of the CMD58 loop that ends it. */
  lemma OcrStops(s0: seq<bv8>, out: seq<bv8>, s: seq<bv8>, index: nat, frame: seq<bv8>,
                 whole: (bool, seq<bv8>, seq<bv8>, seq<bv8>), tail: (bool, seq<bv8>, seq<bv8>, seq<bv8>))
    requires index > 0 && |frame| == 4 && whole == Prepend4(out, tail) && tail == OcrLoop(s, index, frame)
    requires Response(s, RESPONSE_TIMEOUT).0 == 0x00
    ensures var s1 := Response(s, RESPONSE_TIMEOUT).1;
      whole.0 && whole.1 == Take(s1, 4) && whole.2 == Drop(s1, 4) &&
      s0 + out + CmdFrame(Cmd58, 0, 1) + [0xFF] == s0 + whole.3
  {
    var step := CmdFrame(Cmd58, 0, 1) + [0xFF];
    AppendAssoc(s0, out, CmdFrame(Cmd58, 0, 1), [0xFF], []);
    assert whole.3 == out + step;
  }

  /** A try of the CMD58 loop after which it goes on. */
  lemma OcrContinues(s0: seq<bv8>, out: seq<bv8>, s: seq<bv8>, index: nat, frame: seq<bv8>,
                     whole: (bool, seq<bv8>, seq<bv8>, seq<bv8>), tail: (bool, seq<bv8>, seq<bv8>, seq<bv8>))
    requires index > 0 && |frame| == 4 && whole == Prepend4(out, tail) && tail == OcrLoop(s, index, frame)
    requires Response(s, RESPONSE_TIMEOUT).0 != 0x00
    ensures var s1 := Response(s, RESPONSE_TIMEOUT).1;
      whole == Prepend4(out + (CmdFrame(Cmd58, 0, 1) + [0xFF]), OcrLoop(Drop(s1, 4), index - 1, Take(s1, 4))) &&
      s0 + out + CmdFrame(Cmd58, 0, 1) + [0xFF] == s0 + (out + (CmdFrame(Cmd58, 0, 1) + [0xFF]))
  {
    var s1 := Response(s, RESPONSE_TIMEOUT).1;
    var step := CmdFrame(Cmd58, 0, 1) + [0xFF];
    AppendAssoc(s0, out, CmdFrame(Cmd58, 0, 1), [0xFF], []);
    Append3(out, step, OcrLoop(Drop(s1, 4), index - 1, Take(s1, 4)).3);
  }

  /** The errors of `init`. */
  datatype InitError = CmdFailed(cmd: Cmd, response: bv8) | CardCapacityStatusNotSet(frame: seq<bv8>) | CannotGetCardInfo

  datatype InitResult = InitOk(info: CardInfo) | InitErr(error: InitError)

  /** How the ACMD41 loop of `init` ended: the card left the idle state,
      CMD55 was not answered with 0x01 (idle), or the tries ran out. */
  datatype Acmd41End = Ready | Cmd55Failed(response: bv8) | Exhausted

  const INIT_TRIES: nat := 255

  /** The ACMD41 loop of `init` with `index` tries left: each try sends
      CMD55 and wants the idle response 0x01, then ACMD41 with HCS set and
      stops once the response is 0x00. Returns how it ended, what is left
      to read and the bytes sent. */
  function Acmd41Loop(s: seq<bv8>, index: nat): (Acmd41End, seq<bv8>, seq<bv8>)
    decreases index
  {
    if index == 0 then (Exhausted, s, [])
    else
      var (r55, s1) := Response(s, RESPONSE_TIMEOUT);
      var out := CmdFrame(Cmd55, 0, 0) + [0xFF];
      if r55 != 0x01 then (Cmd55Failed(r55), s1, out)
      else
        var (r41, s2) := Response(s1, RESPONSE_TIMEOUT);
        var out2 := out + (CmdFrame(Acmd41, 0x4000_0000, 0) + [0xFF]);
        if r41 == 0x00 then (Ready, s2, out2)
        else
          var (e, s3, out3) := Acmd41Loop(s2, index - 1);
          (e, s3, out2 + out3)
  }

  /** The CMD58 loop of `init` with `index` tries left: read the OCR into
      `frame` until the response is 0x00. Returns whether it was, the last
      frame read, what is left to read and the bytes sent. */
  function OcrLoop(s: seq<bv8>, index: nat, frame: seq<bv8>): (r: (bool, seq<bv8>, seq<bv8>, seq<bv8>))
    requires |frame| == 4
    ensures |r.1| == 4
    decreases index
  {
    if index == 0 then (false, frame, s, [])
    else
      var (r58, s1) := Response(s, RESPONSE_TIMEOUT);
      var ocr := Take(s1, 4);
      var out := CmdFrame(Cmd58, 0, 1) + [0xFF];
      if r58 == 0x00 then (true, ocr, Drop(s1, 4), out)
      else
        var (found, last, s2, out2) := OcrLoop(Drop(s1, 4), index - 1, ocr);
        (found, last, s2, out + out2)
  }

  /** `get_cardinfo` on the bus: the CSD, then the CID; what is left to
      read and the bytes sent. */
  function CardInfoRead(s: seq<bv8>): (Option<CardInfo>, seq<bv8>, seq<bv8>)
  {
    var (t1, s1) := RegisterRead(s);
    var out := CmdFrame(Cmd9, 0, 0) + [0xFF];
    if t1.None? then (None, s1, out)
    else
      var (t2, s2) := RegisterRead(s1);
      var out2 := out + (CmdFrame(Cmd10, 0, 0) + [0xFF]);
      if t2.None? then (None, s2, out2)
      else (Some(MakeCardInfo(DecodeCsd(t1.value), DecodeCid(t2.value))), s2, out2)
  }

  /** The ten idle bytes that put the card in SPI mode, then the reset
      CMD0 with its fixed CRC 0x95. */
  function ResetFrames(): (f: seq<bv8>)
  {
    seq(10, _ => 0xFF) + (CmdFrame(Cmd0, 0, 0x95) + [0xFF])
  }

  /** `init` on the bus: reset, then the voltage check CMD8 with its
      four-byte reply, then `InitAfterVoltage`. Returns the result, what is
      left to read and the bytes sent. */
  function Initialize(s: seq<bv8>): (InitResult, seq<bv8>, seq<bv8>)
  {
    var (r0, s0) := Response(s, RESPONSE_TIMEOUT);
    if r0 != 0x01 then (InitErr(CmdFailed(Cmd0, r0)), s0, ResetFrames())
    else
      var (r8, s1) := Response(s0, RESPONSE_TIMEOUT);
      var out := ResetFrames() + (CmdFrame(Cmd8, 0x01AA, 0x87) + [0xFF]);
      if r8 != 0x01 then (InitErr(CmdFailed(Cmd8, r8)), Drop(s1, 4), out)
      else
        var (res, s2, out2) := InitAfterVoltage(Drop(s1, 4), r8);
        (res, s2, out + out2)
  }

  /** The rest of `init` once CMD8 answered `result`: the ACMD41 loop,
      the CMD58 loop and the card capacity status bit of the OCR, then
      `get_cardinfo`. The failures of the two loops report `result`, the
      CMD8 response, since the loops' own results are local to them. */
  function InitAfterVoltage(s: seq<bv8>, result: bv8): (InitResult, seq<bv8>, seq<bv8>)
  {
    var (e, s1, out1) := Acmd41Loop(s, INIT_TRIES);
    if e.Cmd55Failed? then (InitErr(CmdFailed(Cmd55, e.response)), s1, out1)
    else if e.Exhausted? then (InitErr(CmdFailed(Acmd41, result)), s1, out1)
    else
      var (found, frame, s2, out2) := OcrLoop(s1, INIT_TRIES, [0, 0, 0, 0]);
      if !found then (InitErr(CmdFailed(Cmd58, result)), s2, out1 + out2)
      else if frame[0] & 0x40 == 0 then (InitErr(CardCapacityStatusNotSet(frame)), s2, out1 + out2)
      else
        var (info, s3, out3) := CardInfoRead(s2);
        (if info.None? then InitErr(CannotGetCardInfo) else InitOk(info.value), s3, out1 + out2 + out3)
  }

  /** The ACMD41 loop with `n` tries: CMD55 fails only on a response
      other than 0x01; each try sends at most the two closed frames, 14
      bytes; and the tries run out only after `n` full tries. */
  lemma {:induction false} Acmd41LoopShape(s: seq<bv8>, n: nat)
    ensures var (e, _, out) := Acmd41Loop(s, n);
      (e.Cmd55Failed? ==> e.response != 0x01) && |out| <= 14 * n &&
      (e.Exhausted? ==> |out| == 14 * n)
    decreases n
  {
    if n > 0 {
      var (r55, s1) := Response(s, RESPONSE_TIMEOUT);
      if r55 == 0x01 {
        var (r41, s2) := Response(s1, RESPONSE_TIMEOUT);
        if r41 != 0x00 {
          Acmd41LoopShape(s2, n - 1);
        }
      }
    }
  }

  /** The CMD58 loop with `n` tries: each sends one closed frame, 7
      bytes; it gives up only after all `n`, and when it stops early the
      frame is the four bytes after the 0x00 response. */
  lemma {:induction false} OcrLoopShape(s: seq<bv8>, n: nat, frame: seq<bv8>)
    requires |frame| == 4
    ensures var (found, _, _, out) := OcrLoop(s, n, frame);
      |out| <= 7 * n && (!found ==> |out| == 7 * n) && (found ==> n > 0)
    decreases n
  {
    if n > 0 {
      var (r58, s1) := Response(s, RESPONSE_TIMEOUT);
      if r58 != 0x00 {
        OcrLoopShape(Drop(s1, 4), n - 1, Take(s1, 4));
      }
    }
  }

  /** The card information `get_cardinfo` returns is computed from a CSD
      with the field widths of a decoded one. */
  lemma CardInfoReadDecoded(s: seq<bv8>)
    ensures var info := CardInfoRead(s).0;
      info.Some? ==> (info.value == MakeCardInfo(info.value.csd, info.value.cid) &&
        info.value.csd.rdBlockLen <= 15)
  {
    var (t1, s1) := RegisterRead(s);
    if t1.Some? {
      DecodedCsdWidths(t1.value);
    }
  }

  /** `init` always starts by sending the idle bytes and CMD0, and sends
      nothing more exactly when the card does not answer CMD0 with 0x01
      (idle), which is then the error reported. */
  lemma InitResetFirst(s: seq<bv8>)
    ensures var (res, _, out) := Initialize(s);
      |out| >= |ResetFrames()| && out[..|ResetFrames()|] == ResetFrames() &&
      (Response(s, RESPONSE_TIMEOUT).0 != 0x01 <==> out == ResetFrames()) &&
      (Response(s, RESPONSE_TIMEOUT).0 != 0x01 <==> res.InitErr? && res.error.CmdFailed? && res.error.cmd == Cmd0)
  {
    var (res, _, out) := Initialize(s);
    var (r0, s0) := Response(s, RESPONSE_TIMEOUT);
    if r0 == 0x01 {
      var (r8, s1) := Response(s0, RESPONSE_TIMEOUT);
      var out1 := ResetFrames() + (CmdFrame(Cmd8, 0x01AA, 0x87) + [0xFF]);
      if r8 == 0x01 {
        var (res2, s2, out2) := InitAfterVoltage(Drop(s1, 4), r8);
        assert out == out1 + out2;
        assert out[..|ResetFrames()|] == out1[..|ResetFrames()|];
      }
    }
  }

  /** What each failure of `init` reports: CMD0, CMD8 and CMD55 a
      response other than 0x01; the exhausted ACMD41 and CMD58 loops 0x01,
      the response of CMD8, whatever the card last answered; a card
      without the card capacity status bit the OCR it sent. */
  lemma InitErrors(s: seq<bv8>)
    ensures var res := Initialize(s).0;
      res.InitErr? && res.error.CmdFailed? ==>
        (res.error.cmd in {Cmd0, Cmd8, Cmd55} && res.error.response != 0x01) ||
        (res.error.cmd in {Acmd41, Cmd58} && res.error.response == 0x01)
    ensures var res := Initialize(s).0;
      res.InitErr? && res.error.CardCapacityStatusNotSet? ==>
        |res.error.frame| == 4 && res.error.frame[0] & 0x40 == 0
  {
    var (r0, s0) := Response(s, RESPONSE_TIMEOUT);
    var (r8, s1) := Response(s0, RESPONSE_TIMEOUT);
    Acmd41LoopShape(Drop(s1, 4), INIT_TRIES);
  }

  /** A successful `init` returns card information computed from a
      decoded CSD: the card has at least two sectors, so the assertion
      after `init` in the driver's set-up holds, and the `u64` capacity
      arithmetic does not overflow. */
  lemma InitOkCardInfo(s: seq<bv8>)
    ensures var res := Initialize(s).0;
      res.InitOk? ==> (res.info.cardCapacity / SEC_LEN >= 2 &&
        res.info.cardCapacity <= 0x200_0000_0000_0000 && res.info.cardBlockSize <= 0x8000)
  {
    var (r0, s0) := Response(s, RESPONSE_TIMEOUT);
    var (r8, s1) := Response(s0, RESPONSE_TIMEOUT);
    var (e, s2, out1) := Acmd41Loop(Drop(s1, 4), INIT_TRIES);
    var (found, frame, s3, out2) := OcrLoop(s2, INIT_TRIES, [0, 0, 0, 0]);
    CardInfoReadDecoded(s3);
    var info := CardInfoRead(s3).0;
    if info.Some? {
      CardInfoBounds(info.value.csd, info.value.cid);
    }
  }

  /** A card whose next byte is not idle answers with it at once. */
  lemma ResponseNow(b: bv8, s: seq<bv8>)
    requires b != 0xFF
    ensures Response([b] + s, RESPONSE_TIMEOUT) == (b, s)
  {
    assert Take([b] + s, 1) == [b];
    assert Drop([b] + s, 1) == s;
  }

  /** A register read answered with R1 0x00, the start token and the 18
      bytes returns them and consumes nothing after them. */
  lemma RegisterOfReadyCard(tab: seq<bv8>, rest: seq<bv8>)
    requires |tab| == 18
    ensures RegisterRead([0x00, START_BLOCK] + tab + rest) == (Some(tab), rest)
  {
    var s1 := [START_BLOCK] + tab + rest;
    assert [0x00, START_BLOCK] + tab + rest == [0x00] + s1;
    ResponseNow(0x00, s1);
    assert s1 == [START_BLOCK] + (tab + rest);
    ResponseNow(START_BLOCK, tab + rest);
    assert Take(tab + rest, 18) == tab && Drop(tab + rest, 18) == rest;
  }

  /** A card that answers CMD55 with 0x01 and ACMD41 with 0x00 ends the
      ACMD41 loop at the first try. */
  lemma Acmd41ReadyAtOnce(s: seq<bv8>, n: nat)
    requires n > 0
    ensures Acmd41Loop([0x01, 0x00] + s, n).0 == Ready && Acmd41Loop([0x01, 0x00] + s, n).1 == s
  {
    assert [0x01, 0x00] + s == [0x01] + ([0x00] + s);
    ResponseNow(0x01, [0x00] + s);
    ResponseNow(0x00, s);
  }

  /** A card that answers CMD58 with 0x00 ends the CMD58 loop at the first
      try with the four OCR bytes it sends next. */
  lemma OcrAtOnce(ocr: seq<bv8>, s: seq<bv8>, n: nat, frame: seq<bv8>)
    requires n > 0 && |ocr| == 4 && |frame| == 4
    ensures var (found, last, rest, _) := OcrLoop([0x00] + ocr + s, n, frame);
      found && last == ocr && rest == s
  {
    assert [0x00] + ocr + s == [0x00] + (ocr + s);
    ResponseNow(0x00, ocr + s);
    assert Take(ocr + s, 4) == ocr && Drop(ocr + s, 4) == s;
  }

  /** A card that answers both register reads returns the information
      computed from the CSD and CID bytes it sent. */
  lemma CardInfoOfReadyCard(csd: seq<bv8>, cid: seq<bv8>, rest: seq<bv8>)
    requires |csd| == 18 && |cid| == 18
    ensures var (info, s, _) := CardInfoRead([0x00, START_BLOCK] + csd + ([0x00, START_BLOCK] + cid + rest));
      info == Some(MakeCardInfo(DecodeCsd(csd), DecodeCid(cid))) && s == rest
  {
    RegisterOfReadyCard(csd, [0x00, START_BLOCK] + cid + rest);
    RegisterOfReadyCard(cid, rest);
  }

  /** The replies of a card that goes through `init` at the first try of
      every loop: idle after CMD0 and CMD8 (with its four-byte R7), idle
      after CMD55 and ready after ACMD41, then the OCR and both
      registers. */
  function ReadyCard(r7: seq<bv8>, ocr: seq<bv8>, csd: seq<bv8>, cid: seq<bv8>): seq<bv8>
  {
    [0x01, 0x01] + r7 + ([0x01, 0x00] + ([0x00] + ocr + ([0x00, START_BLOCK] + csd + ([0x00, START_BLOCK] + cid))))
  }

  /** The rest of `init` when both loops end at once with the card
      capacity status bit set: the outcome of `get_cardinfo`. */
  lemma InitAfterVoltageReady(s: seq<bv8>, result: bv8, s1: seq<bv8>, s2: seq<bv8>)
    requires Acmd41Loop(s, INIT_TRIES).0 == Ready && Acmd41Loop(s, INIT_TRIES).1 == s1
    requires var (found, frame, rest, _) := OcrLoop(s1, INIT_TRIES, [0, 0, 0, 0]);
      found && frame[0] & 0x40 != 0 && rest == s2
    ensures var (info, rest, _) := CardInfoRead(s2);
      InitAfterVoltage(s, result).0 == (if info.None? then InitErr(CannotGetCardInfo) else InitOk(info.value)) &&
      InitAfterVoltage(s, result).1 == rest
  {
  }

  /** The rest of `init` on such a card, after CMD8. */
  lemma InitAfterVoltageOfReadyCard(ocr: seq<bv8>, csd: seq<bv8>, cid: seq<bv8>, rest: seq<bv8>)
    requires |ocr| == 4 && |csd| == 18 && |cid| == 18 && ocr[0] & 0x40 != 0
    ensures var regs := [0x00, START_BLOCK] + csd + ([0x00, START_BLOCK] + cid + rest);
      var (res, s, _) := InitAfterVoltage([0x01, 0x00] + ([0x00] + ocr + regs), 0x01);
      res == InitOk(MakeCardInfo(DecodeCsd(csd), DecodeCid(cid))) && s == rest
  {
    var regs := [0x00, START_BLOCK] + csd + ([0x00, START_BLOCK] + cid + rest);
    var afterOcr := [0x00] + ocr + regs;
    Acmd41ReadyAtOnce(afterOcr, INIT_TRIES);
    OcrAtOnce(ocr, regs, INIT_TRIES, [0, 0, 0, 0]);
    CardInfoOfReadyCard(csd, cid, rest);
    InitAfterVoltageReady([0x01, 0x00] + afterOcr, 0x01, afterOcr, regs);
  }

  /** `init` on a card that answers as `ReadyCard` with the card capacity
      status bit set in its OCR succeeds with the information of its CSD
      and CID, and reads nothing past its replies. */
  lemma InitOfReadyCard(r7: seq<bv8>, ocr: seq<bv8>, csd: seq<bv8>, cid: seq<bv8>, rest: seq<bv8>)
    requires |r7| == 4 && |ocr| == 4 && |csd| == 18 && |cid| == 18 && ocr[0] & 0x40 != 0
    ensures var (res, s, _) := Initialize(ReadyCard(r7, ocr, csd, cid) + rest);
      res == InitOk(MakeCardInfo(DecodeCsd(csd), DecodeCid(cid))) && s == rest
  {
    var regs := [0x00, START_BLOCK] + csd + ([0x00, START_BLOCK] + cid + rest);
    var afterR7 := [0x01, 0x00] + ([0x00] + ocr + regs);
    var afterCmd0 := [0x01] + r7 + afterR7;
    assert ReadyCard(r7, ocr, csd, cid) + rest == [0x01] + afterCmd0;
    ResponseNow(0x01, afterCmd0);
    assert afterCmd0 == [0x01] + (r7 + afterR7);
    ResponseNow(0x01, r7 + afterR7);
    assert Drop(r7 + afterR7, 4) == afterR7;
    InitAfterVoltageOfReadyCard(ocr, csd, cid, rest);
  }

  /** An SD card on the SPI bus, as the driver sees it. */
  class Card {
    /** Every byte written on the bus, in order. */
    var sent: seq<bv8>
    /** The bytes the card will shift out next. */
    var incoming: seq<bv8>
    /** Chip select driven low. */
    var selected: bool

    constructor (incoming: seq<bv8>)
      ensures sent == [] && this.incoming == incoming && !selected
    {
      sent := [];
      this.incoming := incoming;
      selected := false;
    }

    /** `write_data`. */
    method WriteData(data: seq<bv8>)
      modifies this
      ensures sent == old(sent) + data && incoming == old(incoming) && selected == old(selected)
    {
      sent := sent + data;
    }

    /** `read_data` into a buffer of `k` bytes. */
    method ReadData(k: nat) returns (data: seq<bv8>)
      modifies this
      ensures data == Take(old(incoming), k) && incoming == Drop(old(incoming), k)
      ensures sent == old(sent) && selected == old(selected)
    {
      data := Take(incoming, k);
      incoming := Drop(incoming, k);
    }

    /** `send_cmd`: select the card and send the command frame. */
    method SendCmd(cmd: Cmd, arg: bv32, crc: bv8)
      modifies this
      ensures selected && sent == old(sent) + CmdFrame(cmd, arg, crc) && incoming == old(incoming)
    {
      selected := true;
      WriteData(CmdFrame(cmd, arg, crc));
    }

    /** `end_cmd`: deselect the card and send one 0xFF. */
    method EndCmd()
      modifies this
      ensures !selected && sent == old(sent) + [0xFF] && incoming == old(incoming)
    {
      selected := false;
      WriteData([0xFF]);
    }

    /** `get_response`. */
    method GetResponse() returns (r: bv8)
      modifies this
      ensures (r, incoming) == Response(old(incoming), RESPONSE_TIMEOUT)
      ensures sent == old(sent) && selected == old(selected)
    {
      var timeout := RESPONSE_TIMEOUT;
      while timeout != 0
        invariant Response(incoming, timeout) == Response(old(incoming), RESPONSE_TIMEOUT)
        invariant sent == old(sent) && selected == old(selected)
      {
        var result := ReadData(1);
        if result[0] != 0xFF {
          return result[0];
        }
        timeout := timeout - 1;
      }
      r := 0xFF;
    }

    /** `get_dataresponse`. */
    method GetDataResponse() returns (r: bv8)
      modifies this
      ensures (r, incoming) == DataResponse(old(incoming))
      ensures sent == old(sent) && selected == old(selected)
    {
      var response := ReadData(1);
      if response[0] & 0x1F != 0x05 {
        return 0xFF;
      }
      ghost var busy := incoming;
      response := ReadData(1);
      while response[0] == 0
        invariant |response| == 1 && sent == old(sent) && selected == old(selected)
        invariant SkipBusy(busy) == if response[0] == 0 then SkipBusy(incoming) else incoming
        decreases |incoming| + if response[0] == 0 then 1 else 0
      {
        response := ReadData(1);
      }
      r := 0;
    }

    /** The common part of `get_csdregister` and `get_cidregister`: send
        the command, expect R1 0x00 and the start token, read 18 bytes. */
    method ReadRegister(cmd: Cmd) returns (tab: Option<seq<bv8>>)
      modifies this
      ensures (tab, incoming) == RegisterRead(old(incoming))
      ensures sent == old(sent) + (CmdFrame(cmd, 0, 0) + [0xFF]) && !selected
    {
      SendCmd(cmd, 0, 0);
      var r1 := GetResponse();
      if r1 != 0 {
        EndCmd();
        return None;
      }
      var token := GetResponse();
      if token != START_BLOCK {
        EndCmd();
        return None;
      }
      var bytes := ReadData(18);
      EndCmd();
      tab := Some(bytes);
    }

    /** `get_cardinfo`: the CSD (CMD9), then the CID (CMD10), then the
        arithmetic; any failed register read fails it. */
    method GetCardInfo() returns (r: Option<CardInfo>)
      modifies this
      ensures var (info, rest, out) := CardInfoRead(old(incoming));
        r == info && incoming == rest && sent == old(sent) + out && !selected
    {
      var csd := ReadRegister(Cmd9);
      if csd.None? {
        return None;
      }
      var cid := ReadRegister(Cmd10);
      Append3(old(sent), CmdFrame(Cmd9, 0, 0) + [0xFF], CmdFrame(Cmd10, 0, 0) + [0xFF]);
      if cid.None? {
        return None;
      }
      r := Some(MakeCardInfo(DecodeCsd(csd.value), DecodeCid(cid.value)));
    }

    /** One block of `read_sector`'s loop: wait for the start token, then
        read the block and its two CRC bytes; the first step of
        `ReadBlocks`. */
    method ReadOneBlock(ghost count: nat) returns (ok: bool, chunk: seq<bv8>)
      requires count > 0
      modifies this
      ensures ok ==> |chunk| == SEC_LEN && ReadBlocks(old(incoming), count) == Prepend(chunk, ReadBlocks(incoming, count - 1))
      ensures !ok ==> ReadBlocks(old(incoming), count) == (false, [], incoming)
      ensures sent == old(sent) && selected == old(selected)
    {
      var token := GetResponse();
      if token != START_BLOCK {
        return false, [];
      }
      chunk := ReadData(SEC_LEN);
      var crc := ReadData(2);
      ok := true;
    }

    /** Copies a block into its slot of `buf`. */
    method CopyBlock(buf: array<bv8>, off: nat, chunk: seq<bv8>)
      requires |chunk| == SEC_LEN && off + SEC_LEN <= buf.Length
      modifies buf
      ensures buf[..] == old(buf[..off]) + chunk + old(buf[off + SEC_LEN..])
    {
      forall j | 0 <= j < SEC_LEN {
        buf[off + j] := chunk[j];
      }
      assert buf[..] == old(buf[..off]) + chunk + old(buf[off + SEC_LEN..]);
    }

    /** One block of `read_sector`'s loop, read into its slot of `buf`. */
    method ReadBlockAt(buf: array<bv8>, off: nat, ghost count: nat) returns (ok: bool, ghost chunk: seq<bv8>)
      requires count > 0 && off + SEC_LEN <= buf.Length
      modifies this, buf
      ensures ok ==> (|chunk| == SEC_LEN && ReadBlocks(old(incoming), count) == Prepend(chunk, ReadBlocks(incoming, count - 1)) &&
        buf[..] == old(buf[..])[..off] + chunk + old(buf[..])[off + SEC_LEN..])
      ensures !ok ==> ReadBlocks(old(incoming), count) == (false, [], incoming) && buf[..] == old(buf[..])
      ensures sent == old(sent) && selected == old(selected)
    {
      var data;
      ok, data := ReadOneBlock(count);
      chunk := data;
      if ok {
        CopyBlock(buf, off, data);
      }
    }

    /** The block loop of `read_sector`: per block wait for the start
        token, read the block into its slot of `buf` and read the two CRC
        bytes; a missing token stops the loop. */
    method ReadBlocksInto(buf: array<bv8>) returns (ok: bool)
      requires buf.Length % SEC_LEN == 0
      modifies this, buf
      ensures var (ok', data, rest) := ReadBlocks(old(incoming), buf.Length / SEC_LEN);
        ok == ok' && incoming == rest && |data| <= buf.Length &&
        buf[..] == data + old(buf[..])[|data|..]
      ensures sent == old(sent) && selected == old(selected)
    {
      var n := buf.Length / SEC_LEN;
      ReadBlocksShape(incoming, n);
      ghost var whole := ReadBlocks(incoming, n);
      ghost var orig := buf[..];
      ghost var got: seq<bv8> := [];
      var i := 0;
      var off := 0;
      assert got + whole.1 == whole.1;
      while i < n
        invariant 0 <= i <= n && off == i * SEC_LEN <= buf.Length && |got| == off
        invariant sent == old(sent) && selected == old(selected)
        invariant buf[..] == got + orig[off..]
        invariant whole == Prepend(got, ReadBlocks(incoming, n - i))
      {
        ghost var tail := ReadBlocks(incoming, n - i);
        ghost var before := buf[..];
        var ok1, chunk := ReadBlockAt(buf, off, n - i);
        if !ok1 {
          ReadRejected(whole, got, tail, incoming);
          return false;
        }
        ghost var next := ReadBlocks(incoming, n - i - 1);
        ReadAccepted(whole, got, chunk, tail, next);
        BufferStep(before, buf[..], got, chunk, orig, off);
        got := got + chunk;
        i := i + 1;
        off := off + SEC_LEN;
      }
      ok := true;
    }

    /** `read_sector` after its command frame. */
    method ReadAfterCmd(buf: array<bv8>) returns (ok: bool)
      requires buf.Length >= SEC_LEN && buf.Length % SEC_LEN == 0
      modifies this, buf
      ensures var (ok', data, rest, out) := ReadAfterCommand(old(incoming), buf.Length);
        ok == ok' && incoming == rest && sent == old(sent) + out && !selected &&
        |data| <= buf.Length && buf[..] == data + old(buf[..])[|data|..]
    {
      var r1 := GetResponse();
      if r1 != 0 {
        EndCmd();
        return false;
      }
      ok := ReadBlocksInto(buf);
      EndCmd();
      if buf.Length != SEC_LEN {
        StopTransmission();
      }
    }

    /** CMD12 after a multi-block read: the command, its response, and
        the command closed twice. */
    method StopTransmission()
      modifies this
      ensures sent == old(sent) + CmdFrame(Cmd12, 0, 0) + [0xFF, 0xFF]
      ensures incoming == Response(old(incoming), RESPONSE_TIMEOUT).1 && !selected
    {
      SendCmd(Cmd12, 0, 0);
      var _ := GetResponse();
      EndCmd();
      EndCmd();
    }

    /** `read_sector` into `buf`: the length assertion panics unless the
        buffer holds whole sectors. Every block read lands in its slot of
        the buffer, also those before a failure; the rest of the buffer
        keeps its contents. */
    method ReadSector(buf: array<bv8>, sector: bv32) returns (r: Outcome<bool>)
      modifies this, buf
      ensures r.Panics? <==> !(buf.Length >= SEC_LEN && buf.Length % SEC_LEN == 0)
      ensures r.Panics? ==> sent == old(sent) && incoming == old(incoming) && buf[..] == old(buf[..])
      ensures r.Returns? ==> (var (ok, data, rest, out) := SectorRead(old(incoming), buf.Length, sector);
        r.value == ok && incoming == rest && sent == old(sent) + out && !selected &&
        |data| <= buf.Length && buf[..] == data + old(buf[..])[|data|..])
    {
      if !(buf.Length >= SEC_LEN && buf.Length % SEC_LEN == 0) {
        return Panics;
      }
      ghost var after := ReadAfterCommand(incoming, buf.Length);
      ghost var whole := SectorRead(incoming, buf.Length, sector);
      assert whole == (after.0, after.1, after.2, CmdFrame(ReadCommand(buf.Length), sector, 0) + after.3);
      ghost var sent0 := sent;
      SendCmd(ReadCommand(buf.Length), sector, 0);
      var ok := ReadAfterCmd(buf);
      Append3(sent0, CmdFrame(ReadCommand(buf.Length), sector, 0), after.3);
      r := Returns(ok);
    }

    /** One block of `write_sector`'s loop: the start frame, the block,
        two dummy CRC bytes, then the data response; a rejected block
        closes the command. The first step of `WriteBlocks`. */
    method WriteOneBlock(data: seq<bv8>, token: bv8) returns (ok: bool, ghost step: seq<bv8>)
      requires |data| >= SEC_LEN
      modifies this
      ensures sent == old(sent) + step && (ok ==> selected == old(selected)) && (!ok ==> !selected)
      ensures ok ==> WriteBlocks(old(incoming), data, token) == Prepend(step, WriteBlocks(incoming, data[SEC_LEN..], token))
      ensures !ok ==> WriteBlocks(old(incoming), data, token) == (false, step, incoming)
    {
      WriteData([0xFF, token]);
      WriteData(data[..SEC_LEN]);
      WriteData([0xFF, 0xFF]);
      step := [0xFF, token] + data[..SEC_LEN] + [0xFF, 0xFF];
      var dr := GetDataResponse();
      if dr != 0 {
        EndCmd();
        step := step + [0xFF];
        return false, step;
      }
      ok := true;
    }

    /** The block loop of `write_sector`. */
    method WriteBlocksFrom(data: seq<bv8>, token: bv8) returns (ok: bool)
      requires |data| % SEC_LEN == 0
      modifies this
      ensures var (ok', out, rest) := WriteBlocks(old(incoming), data, token);
        ok == ok' && incoming == rest && sent == old(sent) + out
      ensures (ok ==> selected == old(selected)) && (!ok ==> !selected)
    {
      ghost var whole := WriteBlocks(old(incoming), data, token);
      ghost var out: seq<bv8> := [];
      var left := data;
      ok := true;
      assert out + whole.1 == whole.1;
      while |left| >= SEC_LEN
        invariant sent == old(sent) + out && selected == old(selected)
        invariant whole == Prepend(out, WriteBlocks(incoming, left, token))
      {
        ghost var before := sent;
        ghost var tail := WriteBlocks(incoming, left, token);
        var ok1, frame := WriteOneBlock(left, token);
        ghost var next := WriteBlocks(incoming, left[SEC_LEN..], token);
        if !ok1 {
          WriteRejected(old(sent), out, frame, whole, tail, incoming);
          ok := false;
          break;
        }
        WriteAccepted(old(sent), out, frame, whole, tail, next);
        out := out + frame;
        left := left[SEC_LEN..];
      }
      if ok {
        WriteBlocksDone(incoming, left, token);
        assert out + [] == out;
      }
    }

    /** `write_sector` after its command frames. */
    method WriteAfterCmd(data: seq<bv8>, token: bv8) returns (ok: bool)
      requires |data| % SEC_LEN == 0
      modifies this
      ensures var (ok', rest, out) := WriteAfterCommand(old(incoming), data, token);
        ok == ok' && incoming == rest && sent == old(sent) + out && !selected
    {
      var r1 := GetResponse();
      if r1 != 0 {
        EndCmd();
        return false;
      }
      ok := WriteBlocksFrom(data, token);
      if ok {
        EndCmd();
        EndCmd();
      }
    }

    /** `write_sector` for one sector: CMD24, then the block with token
        0xFE. */
    method WriteOneSector(data: seq<bv8>, sector: bv32) returns (ok: bool)
      requires |data| == SEC_LEN
      modifies this
      ensures var after := WriteAfterCommand(old(incoming), data, START_BLOCK);
        ok == after.0 && incoming == after.1 && sent == old(sent) + (CmdFrame(Cmd24, sector, 0) + after.2) && !selected
    {
      SendCmd(Cmd24, sector, 0);
      ok := WriteAfterCmd(data, START_BLOCK);
    }

    /** `write_sector` for several sectors: ACMD23 with the count and its
        response, then CMD25 and the blocks with token 0xFC. */
    method WriteManySectors(data: seq<bv8>, sector: bv32) returns (ok: bool)
      requires |data| > SEC_LEN && |data| % SEC_LEN == 0 && |data| / SEC_LEN < 0x1_0000_0000
      modifies this
      ensures var after := WriteAfterCommand(Response(old(incoming), RESPONSE_TIMEOUT).1, data, START_MULTIPLE_WRITE);
        ok == after.0 && incoming == after.1 && !selected &&
        sent == old(sent) + (CmdFrame(Acmd23, U32(|data| / SEC_LEN), 0) + [0xFF] + CmdFrame(Cmd25, sector, 0) + after.2)
    {
      var count := |data| / SEC_LEN;
      ghost var sent0 := sent;
      ghost var setCount := CmdFrame(Acmd23, U32(count), 0);
      ghost var write := CmdFrame(Cmd25, sector, 0);
      SetBlockCount(U32(count));
      SendCmd(Cmd25, sector, 0);
      ghost var sent1 := sent;
      ok := WriteAfterCmd(data, START_MULTIPLE_WRITE);
      ghost var out := sent[|sent1|..];
      assert sent == sent1 + out;
      AppendAssoc(sent0, setCount, [0xFF], write, out);
    }

    /** ACMD23 before a multi-block write: the command with the number of
        blocks, its response, and the command closed. */
    method SetBlockCount(count: bv32)
      modifies this
      ensures sent == old(sent) + CmdFrame(Acmd23, count, 0) + [0xFF]
      ensures incoming == Response(old(incoming), RESPONSE_TIMEOUT).1 && !selected
    {
      SendCmd(Acmd23, count, 0);
      var _ := GetResponse();
      EndCmd();
    }

    /** `write_sector`: the length assertion panics unless `data` holds
        whole sectors, and so does a sector count that does not fit in
        `u32`; neither sends anything. */
    method WriteSector(data: seq<bv8>, sector: bv32) returns (r: Outcome<bool>)
      modifies this
      ensures r.Panics? <==> !(|data| >= SEC_LEN && |data| % SEC_LEN == 0) || |data| / SEC_LEN >= 0x1_0000_0000
      ensures r.Panics? ==> sent == old(sent) && incoming == old(incoming)
      ensures r.Returns? ==> (var w := SectorWrite(old(incoming), data, sector);
        w.Returns? && r.value == w.value.0 && incoming == w.value.1 && sent == old(sent) + w.value.2 && !selected)
    {
      if !(|data| >= SEC_LEN && |data| % SEC_LEN == 0) || |data| / SEC_LEN >= 0x1_0000_0000 {
        return Panics;
      }
      var ok := WriteSectors(data, sector);
      r := Returns(ok);
    }

    /** `write_sector` past its assertion and conversion. */
    method WriteSectors(data: seq<bv8>, sector: bv32) returns (ok: bool)
      requires |data| >= SEC_LEN && |data| % SEC_LEN == 0 && |data| / SEC_LEN < 0x1_0000_0000
      modifies this
      ensures var w := SectorWrite(old(incoming), data, sector);
        w.Returns? && ok == w.value.0 && incoming == w.value.1 && sent == old(sent) + w.value.2 && !selected
    {
      if |data| == SEC_LEN {
        ok := WriteOneSector(data, sector);
        SectorWriteOne(old(incoming), data, sector);
      } else {
        ok := WriteManySectors(data, sector);
        SectorWriteMany(old(incoming), data, sector);
      }
    }

    /** The ACMD41 loop of `init`. */
    method WaitReady() returns (e: Acmd41End)
      modifies this
      ensures var (e', rest, out) := Acmd41Loop(old(incoming), INIT_TRIES);
        e == e' && incoming == rest && sent == old(sent) + out && !selected
    {
      ghost var whole := Acmd41Loop(incoming, INIT_TRIES);
      ghost var out: seq<bv8> := [];
      var index := INIT_TRIES;
      assert out + whole.2 == whole.2;
      while index != 0
        invariant sent == old(sent) + out && (index == INIT_TRIES || !selected)
        invariant whole == PrependAcmd41(out, Acmd41Loop(incoming, index))
      {
        ghost var s0 := incoming;
        ghost var tail := Acmd41Loop(incoming, index);
        ghost var before := sent;
        var r55, r41 := Acmd41Try();
        if r55 != 0x01 {
          Acmd41Stops(old(sent), out, s0, index, whole, tail, incoming);
          return Cmd55Failed(r55);
        }
        if r41 == 0x00 {
          Acmd41Stops(old(sent), out, s0, index, whole, tail, incoming);
          return Ready;
        }
        Acmd41Continues(old(sent), out, s0, index, whole, tail, incoming);
        out := out + Acmd41Sent(s0);
        index := index - 1;
      }
      e := Exhausted;
    }

    /** One try of the ACMD41 loop: CMD55 and, when it answered 0x01,
        ACMD41. */
    method Acmd41Try() returns (r55: bv8, r41: bv8)
      modifies this
      ensures var (a, s1) := Response(old(incoming), RESPONSE_TIMEOUT);
        r55 == a && (a != 0x01 ==> incoming == s1) &&
        (a == 0x01 ==> (r41, incoming) == Response(s1, RESPONSE_TIMEOUT))
      ensures sent == old(sent) + Acmd41Sent(old(incoming)) && !selected
    {
      SendCmd(Cmd55, 0, 0);
      r55 := GetResponse();
      EndCmd();
      if r55 != 0x01 {
        return r55, 0xFF;
      }
      SendCmd(Acmd41, 0x4000_0000, 0);
      r41 := GetResponse();
      EndCmd();
      Append3(old(sent), CmdFrame(Cmd55, 0, 0) + [0xFF], CmdFrame(Acmd41, 0x4000_0000, 0) + [0xFF]);
    }
    /** The CMD58 loop of `init`: read the OCR until the response is
        0x00. */
    method ReadOcr() returns (found: bool, frame: seq<bv8>)
      modifies this
      ensures var (found', last, rest, out) := OcrLoop(old(incoming), INIT_TRIES, [0, 0, 0, 0]);
        found == found' && frame == last && incoming == rest && sent == old(sent) + out && !selected
    {
      ghost var whole := OcrLoop(incoming, INIT_TRIES, [0, 0, 0, 0]);
      ghost var out: seq<bv8> := [];
      var index := INIT_TRIES;
      frame := [0, 0, 0, 0];
      assert out + whole.3 == whole.3;
      found := false;
      while index != 0
        invariant |frame| == 4 && sent == old(sent) + out && (index == INIT_TRIES || !selected)
        invariant whole == Prepend4(out, OcrLoop(incoming, index, frame))
      {
        ghost var s0 := incoming;
        ghost var tail := OcrLoop(incoming, index, frame);
        SendCmd(Cmd58, 0, 1);
        var result := GetResponse();
        frame := ReadData(4);
        EndCmd();
        if result == 0x00 {
          OcrStops(old(sent), out, s0, index, tail.1, whole, tail);
          found := true;
          return;
        }
        OcrContinues(old(sent), out, s0, index, tail.1, whole, tail);
        out := out + (CmdFrame(Cmd58, 0, 1) + [0xFF]);
        index := index - 1;
      }
    }

    /** `init`: chip select high, ten idle bytes, the reset CMD0, the
        voltage check CMD8, then `FinishInit`. */
    method Init() returns (r: InitResult)
      modifies this
      ensures var (res, rest, out) := Initialize(old(incoming));
        r == res && incoming == rest && sent == old(sent) + out && !selected
    {
      var result := Reset();
      if result != 0x01 {
        return InitErr(CmdFailed(Cmd0, result));
      }
      result := CheckVoltage();
      Append3(old(sent), ResetFrames(), CmdFrame(Cmd8, 0x01AA, 0x87) + [0xFF]);
      if result != 0x01 {
        return InitErr(CmdFailed(Cmd8, result));
      }
      ghost var sent1 := sent;
      r := FinishInit(result);
      Append3(old(sent), ResetFrames() + (CmdFrame(Cmd8, 0x01AA, 0x87) + [0xFF]), sent[|sent1|..]);
    }

    /** The start of `init`: ten idle bytes with the card deselected, then
        CMD0 and its response. */
    method Reset() returns (result: bv8)
      modifies this
      ensures (result, incoming) == Response(old(incoming), RESPONSE_TIMEOUT)
      ensures sent == old(sent) + ResetFrames() && !selected
    {
      selected := false;
      WriteData(seq(10, _ => 0xFF));
      SendCmd(Cmd0, 0, 0x95);
      result := GetResponse();
      EndCmd();
      AppendAssoc(old(sent), seq(10, _ => 0xFF), CmdFrame(Cmd0, 0, 0x95), [0xFF], []);
    }

    /** CMD8 with the voltage range 0x1AA and its CRC 0x87: the response,
        then the four bytes of the R7 reply, which `init` does not use. */
    method CheckVoltage() returns (result: bv8)
      modifies this
      ensures var (r, s1) := Response(old(incoming), RESPONSE_TIMEOUT);
        result == r && incoming == Drop(s1, 4)
      ensures sent == old(sent) + CmdFrame(Cmd8, 0x01AA, 0x87) + [0xFF] && !selected
    {
      SendCmd(Cmd8, 0x01AA, 0x87);
      result := GetResponse();
      var _ := ReadData(4);
      EndCmd();
    }

    /** `init` after CMD8 answered `result`. */
    method FinishInit(result: bv8) returns (r: InitResult)
      modifies this
      ensures var (res, rest, out) := InitAfterVoltage(old(incoming), result);
        r == res && incoming == rest && sent == old(sent) + out && !selected
    {
      var e := WaitReady();
      if e.Cmd55Failed? {
        return InitErr(CmdFailed(Cmd55, e.response));
      }
      if e.Exhausted? {
        return InitErr(CmdFailed(Acmd41, result));
      }
      ghost var out1 := sent[|old(sent)|..];
      ghost var sent1 := sent;
      var found, frame := ReadOcr();
      ghost var out2 := sent[|sent1|..];
      Append3(old(sent), out1, out2);
      if !found {
        return InitErr(CmdFailed(Cmd58, result));
      }
      if frame[0] & 0x40 == 0 {
        return InitErr(CardCapacityStatusNotSet(frame));
      }
      ghost var sent2 := sent;
      var info := GetCardInfo();
      Append3(old(sent), out1 + out2, sent[|sent2|..]);
      if info.None? {
        return InitErr(CannotGetCardInfo);
      }
      r := InitOk(info.value);
    }
  }

  /** `block_id as u32`: the block id truncated to 32 bits. */
  function SectorOf(blockId: nat): bv32
  {
    (blockId % 0x1_0000_0000) as bv32
  }

  /** `init()` of the driver module: `init` on the card, whose error
      panics in `unwrap`, then the assertion that the card has sectors,
      which is proved to hold. The clock, UART and pin set-up before it are
      not modelled. */
  method NewWrapper(card: Card) returns (r: Outcome<SdCardWrapper>)
    modifies card
    ensures var (res, rest, out) := Initialize(old(card.incoming));
      card.incoming == rest && card.sent == old(card.sent) + out &&
      (r.Panics? <==> res.InitErr?) && (r.Returns? ==> fresh(r.value) && r.value.card == card)
  {
    var info := card.Init();
    if info.InitErr? {
      return Panics;
    }
    InitOkCardInfo(old(card.incoming));
    assert info.info.cardCapacity / SEC_LEN > 0;
    var w := new SdCardWrapper(card);
    r := Returns(w);
  }

  /** `SDCardWrapper`: the block device over the card; every sector error
      panics in `unwrap`. */
  class SdCardWrapper {
    const card: Card

    constructor (card: Card)
      ensures this.card == card
    {
      this.card := card;
    }

    /** `read_block`: `read_sector` of the truncated block id. */
    method ReadBlock(blockId: nat, buf: array<bv8>) returns (r: Outcome<()>)
      modifies card, buf
      ensures var ok := buf.Length >= SEC_LEN && buf.Length % SEC_LEN == 0;
        !ok ==> r.Panics? && card.sent == old(card.sent) && card.incoming == old(card.incoming)
      ensures buf.Length >= SEC_LEN && buf.Length % SEC_LEN == 0 ==>
        (var (ok, data, rest, out) := SectorRead(old(card.incoming), buf.Length, SectorOf(blockId));
          card.incoming == rest && card.sent == old(card.sent) + out && (r.Returns? <==> ok) &&
          (ok ==> buf[..] == data))
    {
      var res := card.ReadSector(buf, SectorOf(blockId));
      if res.Panics? || !res.value {
        return Panics;
      }
      r := Returns(());
    }

    /** `write_block`: `write_sector` of the truncated block id. */
    method WriteBlock(blockId: nat, buf: seq<bv8>) returns (r: Outcome<()>)
      modifies card
      ensures var w := if |buf| >= SEC_LEN && |buf| % SEC_LEN == 0 then SectorWrite(old(card.incoming), buf, SectorOf(blockId)) else Panics;
        (r.Returns? <==> w.Returns? && w.value.0) &&
        (w.Panics? ==> card.sent == old(card.sent) && card.incoming == old(card.incoming)) &&
        (w.Returns? ==> card.incoming == w.value.1 && card.sent == old(card.sent) + w.value.2)
    {
      var res := card.WriteSector(buf, SectorOf(blockId));
      if res.Panics? || !res.value {
        return Panics;
      }
      r := Returns(());
    }
  }
}
