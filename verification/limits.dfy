/** The limits on header lines, shared by forms and trailers. */
module Limits {
  const HEADER_MAX_LENGTH := 8192
  const HEADER_MAX_COUNT := 100
}
