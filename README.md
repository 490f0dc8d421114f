# CYW43 firmware layout and loader-table model

This project models the part of the cyw43 WiFi/Bluetooth driver that
describes the packed firmware image for the CYW43439 chip and selects the
routines the driver uses to load it. There are two operations:

- `cyw43_firmware_details` fills a caller-supplied
  `cyw43_firmware_details_t` from build-time constants. It records where the
  WiFi firmware container, the extracted WiFi firmware, the CLM regulatory
  blob, the NVRAM configuration and, when Bluetooth support is compiled in,
  the Bluetooth firmware are, and how long each one is. The CLM blob starts at
  the WiFi firmware length rounded up to a 512-byte boundary. The NVRAM
  length is rounded up to a multiple of 64. Both roundings use the C mask
  idiom `(n + mask) & ~mask`.
- `cyw43_firmware_funcs` returns the constant table of seven loading
  routines (`start_wifi_fw`, `start_bt_fw`, `get_wifi_fw`, `get_bt_fw`,
  `get_nvram`, `copy_clm`, `end`). With firmware compression enabled, the
  table holds the decompressing routines. Without it, the table holds the
  embedded-image routines and NULL.

Files:

- `word32.dfy` (module `Word32`): unsigned 32-bit words (`size_t` on the
  driver's 32-bit targets). It defines wrapping `+`, `~` and a bit-by-bit
  `&`, and proves that an AND with a high-bit mask clears the low bits.
- `alignment.dfy` (module `Alignment`): `AlignUp`, the arithmetic round-up
  `((n + k - 1) / k) * k`, proved to be the least multiple of `k` not below
  `n`. It also holds `RoundUpByMask`, the C idiom, with proofs that it equals
  `AlignUp` when `n + mask` fits in a word and collapses to 0 when it wraps.
- `build_config.dfy` (module `BuildConfig`): the build-time inputs. These are
  the blob lengths, `CYW43_ENABLE_BLUETOOTH` and
  `CYW43_ENABLE_FIRMWARE_COMPRESSION`.
- `firmware_details.dfy` (module `FirmwareDetails`): the layout record.
  `DetailsOf` is the record a build produces. `DetailsRecord` is the
  caller's struct, which `Fill` writes field by field. The lemmas state the
  placement and length properties.
- `firmware_funcs.dfy` (module `FirmwareFuncs`): the routine table `Funcs`,
  the C function-pointer type of each slot, and slot-by-slot lemmas for both
  settings of the compression switch.

Modelling choices:

- A pointer is a `Ptr(blob, offset)`. `blob` names one of the three linked
  arrays (`fw_data`, `wifi_nvram_4343`, `bt_fw_data`) and `offset` is a byte
  offset into it.
- The code rounds only the WiFi firmware length and adds it to `fw_data`
  (firmware/firmware_details_43439.h:60). So the CLM blob is 512-byte
  aligned relative to the start of the container, not as an absolute
  address. The model states every placement as an offset from `fw_data`.
- A NULL slot is `Absent`. Each bound slot names the routine it holds.
- The Bluetooth fields exist only in a Bluetooth build. So `DetailsRecord`
  fixes `hasBluetooth` at construction. `Value()` reports those fields only
  when the record has them, and `Fill` leaves their storage alone otherwise.
- Words are naturals below 2^32 rather than `bv32`, and `&` is defined bit
  by bit. This lets the proofs move between the bit-mask form and ordinary
  arithmetic.

## Model

| member | source | states |
|---|---|---|
| `Word32.Add` | firmware/firmware_details_43439.h:60-61 | the C `+` on 32-bit words: the exact sum when it fits, otherwise the sum minus 2^32, which is smaller than both operands |
| `Word32.Not` | firmware/firmware_details_43439.h:60-61 | the C `~`: the complement shares no set bit with the operand, and the two add up to the all-ones word |
| `Word32.And` | firmware/firmware_details_43439.h:60-61 | the C `&`: the result is no larger than either operand |
| `Word32.AndHighBits` | firmware/firmware_details_43439.h:60-61 | for a w-bit number, an AND with the mask of bits s..w-1 keeps everything but the remainder by 2^s, so it rounds down to a multiple of 2^s |
| `Alignment.ClearLowBits` | firmware/firmware_details_43439.h:60-61 | `b & ~(2^s - 1)` on a 32-bit word equals `b - b % 2^s` |
| `Alignment.AlignUpIsLeastMultiple` | firmware/firmware_details_43439.h:60-61 | the reference round-up is a multiple of k, lies in [n, n + k), is at most every multiple of k at or above n, and returns an aligned n unchanged |
| `Alignment.RoundUpByMask` | firmware/firmware_details_43439.h:60-61 | the C idiom `(n + mask) & ~mask` on 32-bit words: the result is at most the wrapped sum and at most `~mask`; its meaning as a round-up is stated by `RoundUpByMaskIsAlignUp` and `RoundUpByMaskWraps` |
| `Alignment.RoundUpByMaskIsAlignUp` | firmware/firmware_details_43439.h:60-61 | `(n + mask) & ~mask` with `mask = 2^s - 1` equals the least multiple of 2^s not below n whenever `n + mask` does not wrap |
| `Alignment.RoundUpByMaskWraps` | firmware/firmware_details_43439.h:60-61 | when `n + mask` wraps past 2^32, the idiom yields 0, which is below n |
| `FirmwareDetails.DetailsOf` | firmware/firmware_details_43439.h:54-68 | the record the layout routine produces: the CLM pointer is into `fw_data` at the 512-aligned round-up of the WiFi length and the NVRAM length is the 64-aligned round-up of the array size whenever the sums do not wrap, and the Bluetooth fields are present exactly when Bluetooth is enabled; the full statements are `ClmPlacement`, `NvramLength`, `DetailsCopyBuildConstants` and `BluetoothFields` |
| `FirmwareDetails.ClmPlacement` | firmware/firmware_details_43439.h:59-60 | the CLM blob is in the WiFi container at the least multiple of 512 not below `CYW43_WIFI_FW_LEN`: at or after the firmware's end, under 512 bytes past it, and unchanged for an aligned length |
| `FirmwareDetails.NvramLength` | firmware/firmware_details_43439.h:61 | the reported NVRAM length is the least multiple of 64 not below the array's size, at most 63 bytes over it, and unchanged for an aligned size |
| `FirmwareDetails.RoundingWrapsNearWordLimit` | firmware/firmware_details_43439.h:60-61 | a WiFi length or an NVRAM size within one mask of 2^32 is rounded to 0 |
| `FirmwareDetails.DetailsCopyBuildConstants` | firmware/firmware_details_43439.h:55-62 | `raw_data` and `wifi_fw_addr` both point at the start of `fw_data`, `wifi_nvram_data` at the start of the NVRAM array, and `raw_wifi_fw_size`, `wifi_fw_size` and `clm_size` are the build's lengths |
| `FirmwareDetails.BluetoothFields` | firmware/firmware_details_43439.h:63-67 | the Bluetooth fields are present exactly when Bluetooth is enabled, and then hold `bt_fw_data_len`, `CYW43_BT_FW_LEN` and the start of `bt_fw_data` |
| `FirmwareDetails.ClmOffsetFor1000` | firmware/firmware_details_43439.h:60 | a 1000-byte WiFi firmware places the CLM blob at offset 1024 |
| `FirmwareDetails.NvramLengthFor10` | firmware/firmware_details_43439.h:61 | a 10-byte NVRAM array is reported as 64 bytes |
| `FirmwareDetails.DetailsRecord.Value` | src/firmware_defs.h:41-55 | the contents of the caller's `cyw43_firmware_details_t`: it carries the Bluetooth fields exactly when the record's layout has them, and its CLM pointer and NVRAM length are the record's own fields; what a filled record holds is stated by `Fill` together with `ClmPlacement`, `NvramLength` and `BluetoothFields` |
| `FirmwareDetails.DetailsRecord.constructor` | src/firmware_defs.h:41-55 | a record whose layout has the Bluetooth fields exactly when the build enables Bluetooth |
| `FirmwareDetails.DetailsRecord.Fill` | firmware/firmware_details_43439.h:54-68 | after filling, the record holds exactly the layout the build determines, and a record without Bluetooth fields keeps its Bluetooth storage untouched |
| `FirmwareFuncs.Funcs` | firmware/firmware_details_43439.h:78-99 | the accessor's table is well typed: every slot holds NULL or a routine of that slot's C function-pointer type |
| `FirmwareFuncs.CompressedTable` | firmware/firmware_details_43439.h:80-87 | with compression, all seven slots are bound, `start_wifi_fw` is the WiFi decompress-start and `start_bt_fw` the Bluetooth decompress-start, both firmware gets use the decompressing get, and `copy_clm` and `end` use the decompressing copy and end |
| `FirmwareFuncs.UncompressedTable` | firmware/firmware_details_43439.h:88-96 | without compression, both start slots and `end` are NULL, `copy_clm` is the embedded copy, and both firmware gets are the embedded get |
| `FirmwareFuncs.NvramNeverCompressed` | firmware/firmware_details_43439.h:85-93 | `get_nvram` is the embedded get in every build |
| `FirmwareFuncs.SlotsFollowSelectedBackend` | firmware/firmware_details_43439.h:80-96 | every bound slot except `get_nvram` belongs to the backend the compression switch selects, and no slot is the external-storage get |
| `FirmwareFuncs.StreamingIffCompressed` | firmware/firmware_details_43439.h:80-96 | the start slots and the end slot are bound, and the WiFi get decompresses, exactly when compression is enabled |
| `FirmwareFuncs.TableDependsOnlyOnCompression` | firmware/firmware_details_43439.h:78-99 | two builds with the same compression setting get the same table, because the table is one static constant per build |

## Left out

- The bodies of `cyw43_firmware_embedded_get`, `wifi_firmware_get_storage`, `cyw43_firmware_copy_embedded` and the `cyw43_*_decompress_*` routines are not part of this model. They are only declared (src/firmware_defs.h:86-166), so the table names them without modelling what they do. That also leaves out the decompressor's start/stream/end state machine, its forward-only cursor, and the chunked copy protocol those routines follow.
- The decompression algorithm and the flash or storage reads are foreign code and I/O.
- The firmware blobs are pulled in by macro-selected `#include`s. Their lengths are parameters of `BuildConfig.Build`, and their bytes are not modelled.
- The `extern` global `firmware_details` is not modelled. Real pointer arithmetic and provenance are replaced by offsets into named arrays.
- The accessor's "same table instance on every call" is modelled as a function of the build. So pointer identity of the static table is reduced to equality of its value.
- `ClmPlacement`: `CYW43_WIFI_FW_LEN` is an `int` constant in C, so `CYW43_WIFI_FW_LEN + 511` is signed `int` arithmetic, defined only for lengths up to `INT_MAX - 511` (2^31 - 512). The model does the rounding on unsigned 32-bit words. For a length from 2^31 - 511 up to `INT_MAX` the C expression overflows, and `ClmPlacement` (whose precondition excludes only sums that reach 2^32) states the unsigned reading, the exact round-up. The model wraps only from 2^32 - 511 upward, a value no `int` constant can take, so the WiFi half of `RoundingWrapsNearWordLimit` describes no build the C code accepts; its NVRAM half is the defined unsigned wrap of `sizeof` arithmetic.
- The word width is fixed at 32 bits, the width of `size_t` on the driver's targets. A 64-bit host build would wrap only at 2^64.
