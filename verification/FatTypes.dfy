/** The vocabulary the layers of the driver share. */
module FatTypes {

  /** The ranges of UINT32 and UINT64. */
  const UINT32: nat := 0x1_0000_0000
  const UINT64: nat := 0x1_0000_0000_0000_0000

  type UInt64 = x: nat | x < UINT64

  datatype Option<T> = None | Some(value: T)

  /** EFI_STATUS, as far as the modelled functions return it. */
  datatype Status =
    | Success | VolumeCorrupted | VolumeFull | Unsupported | InvalidParameter
    | DeviceError | WriteProtected | AccessDenied | BufferTooSmall

  datatype FatType = Fat12 | Fat16 | Fat32
}
