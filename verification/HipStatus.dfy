/** HIP's status codes, as both libraries report them. */
module HipStatus {
  const HIP_SUCCESS: int := 0
  const HIP_ERROR_OUT_OF_MEMORY: int := 2
  const HIP_ERROR_NO_DEVICE: int := 100
  const HIP_ERROR_NOT_SUPPORTED: int := 801
}
