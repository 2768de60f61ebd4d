/** The kernel's error codes, error_handling/errno.h. */
module Errno {
  datatype Kerr =
    | E_OK | E_NOMEM | E_INVALID | E_NOTFOUND | E_EXISTS | E_NOTDIR | E_ISDIR | E_TIMEOUT | E_PERM | E_HARDWARE
}
