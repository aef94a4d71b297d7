/** The limits the library is built with, at their default values. */
module Config {
  const HEADER_FIELD_MAX: nat := 256
  const HEADER_BUFFER_MAX: nat := 4096
  const BUFFER_SIZE: nat := 4096
}
