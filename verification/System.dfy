/** Error numbers and ranges of the C types, as the two programs see them. */
module System {
  const EPERM := 1
  const ENOENT := 2
  const EIO := 5
  const EEXIST := 17
  const EINVAL := 22

  const INT_MAX := 0x7fff_ffff
  const OFF_MAX := 0x7fff_ffff_ffff_ffff
}
