/** The return codes of `bkv/inc/bkv_error.h`; the last two share a value. */
module BkvError {
  const BKV_OK := 1
  const BKV_HDL_INV := -2
  const BKV_INV_ARG := -5
  const BKV_KEY_OUT_OF_RANGE := -5
}
