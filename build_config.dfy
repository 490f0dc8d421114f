/**
 * The build-time inputs of the firmware layer: the lengths of the firmware
 * blobs linked into the image and the two configuration switches. In the C
 * source these are macros and linker-visible constants fixed before the
 * layout record and the function table are first built.
 */
module BuildConfig {
  import opened Word32

  datatype Build = Build(
    fwDataLen: Word,         // fw_data_len: bytes of the WiFi firmware container as stored
    wifiFwLen: Word,         // CYW43_WIFI_FW_LEN: WiFi firmware bytes after extraction
    clmLen: Word,            // CYW43_CLM_LEN: CLM blob bytes after extraction
    nvramSize: Word,         // sizeof(wifi_nvram_4343): NVRAM bytes as linked
    btFwDataLen: Word,       // bt_fw_data_len: Bluetooth firmware bytes as stored
    btFwLen: Word,           // CYW43_BT_FW_LEN: Bluetooth firmware bytes after extraction
    enableBluetooth: bool,   // CYW43_ENABLE_BLUETOOTH
    enableCompression: bool  // CYW43_ENABLE_FIRMWARE_COMPRESSION
  )
}
