/**
 * The table of firmware-loading routines handed to the driver.
 *
 * Each of the seven slots holds one of the loading routines the firmware
 * layer declares, or Absent for a NULL pointer. Which routine fills which
 * slot is fixed by the build's compression switch; the table is a constant,
 * so every call of the accessor yields the same table.
 */
module FirmwareFuncs {
  import opened BuildConfig

  /** The routines declared for the slots, and NULL. */
  datatype Routine =
    | Absent                       // NULL
    | WifiFirmwareGetStorage       // wifi_firmware_get_storage
    | FirmwareEmbeddedGet          // cyw43_firmware_embedded_get
    | FirmwareCopyEmbedded         // cyw43_firmware_copy_embedded
    | WifiFirmwareDecompressStart  // cyw43_wifi_firmware_decompress_start
    | BtFirmwareDecompressStart    // cyw43_bt_firmware_decompress_start
    | FirmwareDecompressGet        // cyw43_firmware_decompress_get
    | FirmwareDecompressCopy       // cyw43_firmware_decompress_copy
    | FirmwareDecompressEnd        // cyw43_firmware_decompress_end

  /** The four C function-pointer types of the table's slots. */
  datatype Signature =
    | StartSig  // int (*)(const cyw43_firmware_details_t *)
    | GetSig    // const uint8_t *(*)(const uint8_t *, size_t, uint8_t *, size_t)
    | CopySig   // int (*)(uint8_t *, const uint8_t *, uint32_t)
    | EndSig    // void (*)(void)

  /** Where a routine takes its bytes from. */
  datatype Backend = Embedded | Storage | Decompression

  function SignatureOf(r: Routine): (sig: Signature)
    requires r != Absent
  {
    match r
    case WifiFirmwareGetStorage => GetSig
    case FirmwareEmbeddedGet => GetSig
    case FirmwareCopyEmbedded => CopySig
    case WifiFirmwareDecompressStart => StartSig
    case BtFirmwareDecompressStart => StartSig
    case FirmwareDecompressGet => GetSig
    case FirmwareDecompressCopy => CopySig
    case FirmwareDecompressEnd => EndSig
  }

  function BackendOf(r: Routine): (backend: Backend)
    requires r != Absent
  {
    match r
    case WifiFirmwareGetStorage => Storage
    case FirmwareEmbeddedGet => Embedded
    case FirmwareCopyEmbedded => Embedded
    case _ => Decompression
  }

  datatype FuncTable = FuncTable(
    startWifiFw: Routine,
    startBtFw: Routine,
    getWifiFw: Routine,
    getBtFw: Routine,
    getNvram: Routine,
    copyClm: Routine,
    end: Routine)

  /** The slots in declaration order. */
  function Slots(t: FuncTable): (s: seq<Routine>)
    ensures |s| == 7
  {
    [t.startWifiFw, t.startBtFw, t.getWifiFw, t.getBtFw, t.getNvram, t.copyClm, t.end]
  }

  /** The function-pointer type of each slot, in declaration order. */
  const SLOT_SIGNATURES: seq<Signature> := [StartSig, StartSig, GetSig, GetSig, GetSig, CopySig, EndSig]

  /** Index of the get_nvram slot. */
  const NVRAM_SLOT: nat := 4

  /** A slot may hold NULL or a routine of the slot's own type. */
  predicate Fits(r: Routine, sig: Signature)
  {
    r == Absent || SignatureOf(r) == sig
  }

  predicate WellTyped(t: FuncTable)
  {
    forall i :: 0 <= i < 7 ==> Fits(Slots(t)[i], SLOT_SIGNATURES[i])
  }

  /** The backend the build selects for the streamed segments. */
  function SelectedBackend(b: Build): (backend: Backend)
  {
    if b.enableCompression then Decompression else Embedded
  }

  /**
   * cyw43_firmware_funcs: the constant table for the build. Every slot holds
   * NULL or a routine of the slot's type.
   */
  function Funcs(b: Build): (t: FuncTable)
    ensures WellTyped(t)
  {
    if b.enableCompression then
      FuncTable(
        WifiFirmwareDecompressStart,
        BtFirmwareDecompressStart,
        FirmwareDecompressGet,
        FirmwareDecompressGet,
        FirmwareEmbeddedGet,
        FirmwareDecompressCopy,
        FirmwareDecompressEnd)
    else
      FuncTable(
        Absent,
        Absent,
        FirmwareEmbeddedGet,
        FirmwareEmbeddedGet,
        FirmwareEmbeddedGet,
        FirmwareCopyEmbedded,
        Absent)
  }

  /**
   * With compression every slot is bound; each start slot opens its own
   * segment's stream, both firmware gets share the one decompressing get,
   * and the CLM copy and the end slot use the decompressing routines.
   */
  lemma CompressedTable(b: Build)
    requires b.enableCompression
    ensures forall r :: r in Slots(Funcs(b)) ==> r != Absent
    ensures Funcs(b).startWifiFw == WifiFirmwareDecompressStart
    ensures Funcs(b).startBtFw == BtFirmwareDecompressStart
    ensures Funcs(b).getWifiFw == Funcs(b).getBtFw == FirmwareDecompressGet
    ensures Funcs(b).copyClm == FirmwareDecompressCopy
    ensures Funcs(b).end == FirmwareDecompressEnd
  {
  }

  /**
   * Without compression there is nothing to start or end, and the CLM blob
   * is copied straight from the embedded image.
   */
  lemma UncompressedTable(b: Build)
    requires !b.enableCompression
    ensures Funcs(b).startWifiFw == Funcs(b).startBtFw == Funcs(b).end == Absent
    ensures Funcs(b).copyClm == FirmwareCopyEmbedded
    ensures Funcs(b).getWifiFw == Funcs(b).getBtFw == FirmwareEmbeddedGet
  {
  }

  /** NVRAM is never compressed: its slot is the embedded get in every build. */
  lemma NvramNeverCompressed(b: Build)
    ensures Funcs(b).getNvram == FirmwareEmbeddedGet
    ensures BackendOf(Funcs(b).getNvram) == Embedded
  {
  }

  /**
   * Every bound slot other than get_nvram belongs to the backend the build
   * selects, so one table never mixes decompressing and embedded firmware
   * reads; no slot reads from external storage.
   */
  lemma SlotsFollowSelectedBackend(b: Build)
    ensures forall i :: 0 <= i < 7 && i != NVRAM_SLOT && Slots(Funcs(b))[i] != Absent ==>
      BackendOf(Slots(Funcs(b))[i]) == SelectedBackend(b)
    ensures WifiFirmwareGetStorage !in Slots(Funcs(b))
  {
  }

  /**
   * A stream has to be opened exactly when it has to be closed: the start
   * slots and the end slot are bound exactly when compression is enabled,
   * which is also exactly when the WiFi get decompresses.
   */
  lemma StreamingIffCompressed(b: Build)
    ensures Funcs(b).startWifiFw != Absent <==> b.enableCompression
    ensures Funcs(b).startBtFw != Absent <==> b.enableCompression
    ensures Funcs(b).end != Absent <==> b.enableCompression
    ensures Funcs(b).getWifiFw == FirmwareDecompressGet <==> b.enableCompression
  {
  }

  /**
   * The table depends on the compression switch alone: builds that differ
   * only in sizes or in Bluetooth support get the same table.
   */
  lemma TableDependsOnlyOnCompression(b1: Build, b2: Build)
    requires b1.enableCompression == b2.enableCompression
    ensures Funcs(b1) == Funcs(b2)
  {
  }
}
