module Binary {
  /** An octet, as stored in files and fed to digests. */
  newtype byte = x: int | 0 <= x < 256
}

