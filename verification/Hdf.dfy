/** Return codes and fixed-width numbers shared by all services. */
module Hdf {

  const HDF_SUCCESS := 0
  const HDF_FAILURE := -1
  const HDF_ERR_INVALID_PARAM := -3
  const HDF_ERR_INVALID_OBJECT := -4
  const HDF_ERR_MALLOC_FAIL := -6

  const INT32_MAX := 0x7fff_ffff
  const INT64_MAX := 0x7fff_ffff_ffff_ffff

  type UInt8 = x: int | 0 <= x < 0x100
  type Int8 = x: int | -0x80 <= x < 0x80
  type UInt32 = x: int | 0 <= x < 0x1_0000_0000
  type Int32 = x: int | -0x8000_0000 <= x < 0x8000_0000
  type Int64 = x: int | -0x8000_0000_0000_0000 <= x < 0x8000_0000_0000_0000
}
