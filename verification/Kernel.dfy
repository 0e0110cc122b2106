/** What the rest of the model shares: an optional value and Linux error numbers. */
module Kernel {
  datatype Option<T> = None | Some(value: T)

  const ESRCH := 3
  const ENXIO := 6
  const EBADF := 9
  const ENODEV := 19
  const ENOTDIR := 20
  const EINVAL := 22
  const EMFILE := 24
}
