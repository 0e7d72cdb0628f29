/** The machine's words and bytes, and the kernel's error numbers. */
module Machine {

  type Word = x: int | 0 <= x < 0x1_0000_0000_0000_0000
  type Byte = x: int | 0 <= x < 256

  datatype Option<T> = None | Some(value: T)

  const EBADF: int := 9
  const ENOMEM: int := 12
  const EACCES: int := 13
  const EFAULT: int := 14
  const EINVAL: int := 22
}
