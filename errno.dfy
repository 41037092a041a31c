/** Status codes returned by the TinyFS library (tinyFS_errno.h). */
module Errno {
  const SUCCESS: int := 1

  /** libDisk.c's seek failure; the abstract block device never seeks. */
  const ERR_SEEK: int := -1
  const ERR_READ: int := -2
  const ERR_WRITE: int := -3

  const MKFS_FAILURE: int := -6
  const ERR_FILE_NAME_LENGTH: int := -7
  const ERR_TFS_MOUNT: int := -8
  const ERR_INVALID_TFS: int := -9
  const ERR_TFS_UNMOUNT: int := -10
  const ERR_TFS_NOT_MOUNTED: int := -11
  const ERR_FILE_CLOSE: int := -12
  const ERR_INVALID_SPACE: int := -14
}
