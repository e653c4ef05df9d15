/** Optional values, and the error codes the driver returns. */
module Results {

  datatype Option<T> = None | Some(value: T)

  const EIO := -5
  const EFAULT := -14
  const EINVAL := -22
  const ERANGE := -34
  const ECONNRESET := -104
  const ENOBUFS := -105
}
