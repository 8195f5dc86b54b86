/** Target-platform constants shared by the line scanner and the vector layer. */
module Platform {

  /** std::numeric_limits<std::size_t>::max() on a 64-bit target. */
  const SIZE_MAX: nat := 0xFFFF_FFFF_FFFF_FFFF
}
