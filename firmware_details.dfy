/**
 * The firmware layout record and the routine that fills it.
 *
 * A pointer into the firmware image is modelled as an offset into one of the
 * three arrays the build links in: the WiFi firmware container `fw_data`,
 * the NVRAM array `wifi_nvram_4343` and, with Bluetooth, `bt_fw_data`.
 */
module FirmwareDetails {
  import opened Word32
  import opened Alignment
  import opened BuildConfig

  datatype Option<T> = None | Some(value: T)

  /** The linked arrays a layout pointer can point into. */
  datatype Blob = FwData | WifiNvram | BtFwData

  datatype Ptr = Ptr(blob: Blob, offset: nat)

  /** The three fields compiled in only when Bluetooth is enabled. */
  datatype BtFields = BtFields(rawBtFwSize: Word, btFwSize: Word, btFwAddr: Ptr)

  /** The contents of a filled cyw43_firmware_details_t. */
  datatype Details = Details(
    rawWifiFwSize: Word,
    rawData: Ptr,
    wifiFwSize: Word,
    clmSize: Word,
    wifiFwAddr: Ptr,
    clmAddr: Ptr,
    wifiNvramLen: Word,
    wifiNvramData: Ptr,
    bt: Option<BtFields>)

  /** The CLM blob starts on a 512-byte boundary: mask 2^9 - 1. */
  const CLM_MASK: Word := 511
  const CLM_ALIGN_BITS: nat := 9
  /** The NVRAM length is a multiple of 64 bytes: mask 2^6 - 1. */
  const NVRAM_MASK: Word := 63
  const NVRAM_ALIGN_BITS: nat := 6

  /**
   * The record the layout routine produces for a build: the CLM blob sits in
   * the WiFi container at the rounded-up firmware length, the NVRAM length
   * is the rounded-up array size, and the Bluetooth fields exist exactly
   * when Bluetooth is enabled.
   */
  function DetailsOf(b: Build): (r: Details)
    ensures r.clmAddr.blob == FwData
    ensures b.wifiFwLen + CLM_MASK < WORD_MODULUS ==> r.clmAddr.offset == AlignUp(b.wifiFwLen, 512)
    ensures b.nvramSize + NVRAM_MASK < WORD_MODULUS ==> r.wifiNvramLen == AlignUp(b.nvramSize, 64)
    ensures r.bt.Some? <==> b.enableBluetooth
  {
    var clmOffset := RoundUpByMask(b.wifiFwLen, CLM_MASK);
    var nvramLen := RoundUpByMask(b.nvramSize, NVRAM_MASK);
    assert b.wifiFwLen + CLM_MASK < WORD_MODULUS ==> clmOffset == AlignUp(b.wifiFwLen, 512) by {
      if b.wifiFwLen + CLM_MASK < WORD_MODULUS {
        assert Pow2(CLM_ALIGN_BITS) == 512;
        RoundUpByMaskIsAlignUp(b.wifiFwLen, CLM_MASK, CLM_ALIGN_BITS);
      }
    }
    assert b.nvramSize + NVRAM_MASK < WORD_MODULUS ==> nvramLen == AlignUp(b.nvramSize, 64) by {
      if b.nvramSize + NVRAM_MASK < WORD_MODULUS {
        assert Pow2(NVRAM_ALIGN_BITS) == 64;
        RoundUpByMaskIsAlignUp(b.nvramSize, NVRAM_MASK, NVRAM_ALIGN_BITS);
      }
    }
    Details(
      b.fwDataLen,
      Ptr(FwData, 0),
      b.wifiFwLen,
      b.clmLen,
      Ptr(FwData, 0),
      Ptr(FwData, clmOffset),
      nvramLen,
      Ptr(WifiNvram, 0),
      if b.enableBluetooth then Some(BtFields(b.btFwDataLen, b.btFwLen, Ptr(BtFwData, 0))) else None)
  }

  /**
   * The CLM blob is placed in the container at the WiFi firmware length
   * rounded up to the next 512-byte boundary: a multiple of 512, at or after
   * the end of the WiFi firmware and less than 512 bytes past it, the least
   * such offset, and the length itself when it is already aligned.
   */
  lemma ClmPlacement(b: Build)
    requires b.wifiFwLen + CLM_MASK < WORD_MODULUS
    ensures DetailsOf(b).clmAddr.blob == DetailsOf(b).wifiFwAddr.blob
    ensures DetailsOf(b).clmAddr.offset == AlignUp(b.wifiFwLen, 512)
    ensures DetailsOf(b).clmAddr.offset % 512 == 0
    ensures b.wifiFwLen <= DetailsOf(b).clmAddr.offset < b.wifiFwLen + 512
    ensures forall m: nat :: IsMultiple(m, 512) && b.wifiFwLen <= m ==> DetailsOf(b).clmAddr.offset <= m
    ensures b.wifiFwLen % 512 == 0 ==> DetailsOf(b).clmAddr.offset == b.wifiFwLen
  {
    assert Pow2(CLM_ALIGN_BITS) == 512;
    RoundUpByMaskIsAlignUp(b.wifiFwLen, CLM_MASK, CLM_ALIGN_BITS);
    AlignUpIsLeastMultiple(b.wifiFwLen, 512);
  }

  /**
   * The reported NVRAM length is the linked size rounded up to the next
   * 64-byte boundary: a multiple of 64, at least the size, less than 64
   * bytes above it, and the least such length.
   */
  lemma NvramLength(b: Build)
    requires b.nvramSize + NVRAM_MASK < WORD_MODULUS
    ensures DetailsOf(b).wifiNvramLen == AlignUp(b.nvramSize, 64)
    ensures DetailsOf(b).wifiNvramLen % 64 == 0
    ensures b.nvramSize <= DetailsOf(b).wifiNvramLen < b.nvramSize + 64
    ensures forall m: nat :: IsMultiple(m, 64) && b.nvramSize <= m ==> DetailsOf(b).wifiNvramLen <= m
    ensures b.nvramSize % 64 == 0 ==> DetailsOf(b).wifiNvramLen == b.nvramSize
  {
    assert Pow2(NVRAM_ALIGN_BITS) == 64;
    RoundUpByMaskIsAlignUp(b.nvramSize, NVRAM_MASK, NVRAM_ALIGN_BITS);
    AlignUpIsLeastMultiple(b.nvramSize, 64);
  }

  /**
   * Lengths so close to 2^32 that adding the mask wraps around produce an
   * offset and a length of 0, below the unrounded value.
   */
  lemma RoundingWrapsNearWordLimit(b: Build)
    ensures b.wifiFwLen + CLM_MASK >= WORD_MODULUS ==> DetailsOf(b).clmAddr.offset == 0 < b.wifiFwLen
    ensures b.nvramSize + NVRAM_MASK >= WORD_MODULUS ==> DetailsOf(b).wifiNvramLen == 0 < b.nvramSize
  {
    assert Pow2(CLM_ALIGN_BITS) == 512 && Pow2(NVRAM_ALIGN_BITS) == 64;
    if b.wifiFwLen + CLM_MASK >= WORD_MODULUS {
      RoundUpByMaskWraps(b.wifiFwLen, CLM_MASK, CLM_ALIGN_BITS);
    }
    if b.nvramSize + NVRAM_MASK >= WORD_MODULUS {
      RoundUpByMaskWraps(b.nvramSize, NVRAM_MASK, NVRAM_ALIGN_BITS);
    }
  }

  /**
   * The raw container and the WiFi firmware both start at the beginning of
   * `fw_data`, the NVRAM pointer is the start of the NVRAM array, and every
   * size that is not rounded is copied from the build unchanged.
   */
  lemma DetailsCopyBuildConstants(b: Build)
    ensures DetailsOf(b).rawData == DetailsOf(b).wifiFwAddr == Ptr(FwData, 0)
    ensures DetailsOf(b).rawWifiFwSize == b.fwDataLen
    ensures DetailsOf(b).wifiFwSize == b.wifiFwLen
    ensures DetailsOf(b).clmSize == b.clmLen
    ensures DetailsOf(b).wifiNvramData == Ptr(WifiNvram, 0)
  {
  }

  /**
   * The Bluetooth fields are present exactly when Bluetooth is enabled, and
   * then hold the stored length, the extracted length and the start of the
   * Bluetooth firmware array.
   */
  lemma BluetoothFields(b: Build)
    ensures DetailsOf(b).bt.Some? <==> b.enableBluetooth
    ensures b.enableBluetooth ==>
      DetailsOf(b).bt.value == BtFields(b.btFwDataLen, b.btFwLen, Ptr(BtFwData, 0))
  {
  }

  /** A WiFi firmware of 1000 bytes puts the CLM blob 1024 bytes into the container. */
  lemma ClmOffsetFor1000()
    ensures forall b: Build :: b.wifiFwLen == 1000 ==> DetailsOf(b).clmAddr.offset == 1024
  {
    forall b: Build | b.wifiFwLen == 1000
      ensures DetailsOf(b).clmAddr.offset == 1024
    {
      ClmPlacement(b);
      assert AlignUp(1000, 512) == 1024;
    }
  }

  /** An NVRAM array of 10 bytes is reported as 64 bytes long. */
  lemma NvramLengthFor10()
    ensures forall b: Build :: b.nvramSize == 10 ==> DetailsOf(b).wifiNvramLen == 64
  {
    forall b: Build | b.nvramSize == 10
      ensures DetailsOf(b).wifiNvramLen == 64
    {
      NvramLength(b);
      assert AlignUp(10, 64) == 64;
    }
  }

  /**
   * A caller-supplied cyw43_firmware_details_t. Which fields exist is fixed
   * by the build: the Bluetooth fields are part of the record only when
   * Bluetooth support is compiled in.
   */
  class DetailsRecord {
    const hasBluetooth: bool
    var rawWifiFwSize: Word
    var rawData: Ptr
    var wifiFwSize: Word
    var clmSize: Word
    var wifiFwAddr: Ptr
    var clmAddr: Ptr
    var wifiNvramLen: Word
    var wifiNvramData: Ptr
    var rawBtFwSize: Word
    var btFwSize: Word
    var btFwAddr: Ptr

    /** The record's contents; Bluetooth fields only when the record has them. */
    function Value(): (r: Details)
      reads this
      ensures r.bt.Some? <==> hasBluetooth
      ensures r.clmAddr == clmAddr && r.wifiNvramLen == wifiNvramLen
    {
      Details(rawWifiFwSize, rawData, wifiFwSize, clmSize, wifiFwAddr, clmAddr,
              wifiNvramLen, wifiNvramData,
              if hasBluetooth then Some(BtFields(rawBtFwSize, btFwSize, btFwAddr)) else None)
    }

    /** An unfilled record of the layout the build selects. */
    constructor (hasBluetooth: bool)
      ensures this.hasBluetooth == hasBluetooth
    {
      this.hasBluetooth := hasBluetooth;
    }

    /**
     * cyw43_firmware_details: writes every field of the record, one after
     * another, from the build constants. A record without Bluetooth fields
     * keeps its (non-existent) Bluetooth storage as it was.
     */
    method Fill(b: Build)
      requires hasBluetooth == b.enableBluetooth
      modifies this
      ensures Value() == DetailsOf(b)
      ensures !hasBluetooth ==>
        rawBtFwSize == old(rawBtFwSize) && btFwSize == old(btFwSize) && btFwAddr == old(btFwAddr)
    {
      rawWifiFwSize := b.fwDataLen;
      rawData := Ptr(FwData, 0);
      wifiFwSize := b.wifiFwLen;
      clmSize := b.clmLen;
      wifiFwAddr := Ptr(FwData, 0);
      clmAddr := Ptr(FwData, RoundUpByMask(b.wifiFwLen, CLM_MASK));
      wifiNvramLen := RoundUpByMask(b.nvramSize, NVRAM_MASK);
      wifiNvramData := Ptr(WifiNvram, 0);
      if hasBluetooth {
        rawBtFwSize := b.btFwDataLen;
        btFwSize := b.btFwLen;
        btFwAddr := Ptr(BtFwData, 0);
      }
    }
  }
}
