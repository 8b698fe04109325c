/** The fixed list of C standard-library headers that `--nosysinc` suppresses. */
module SysHeaders {
  import opened IncludeLine

  const LibcHeaders: seq<string> := [
    "assert.h", "complex.h", "ctype.h", "errno.h", "fenv.h", "float.h", "inttypes.h", "iso646.h",
    "limits.h", "locale.h", "math.h", "setjmp.h", "signal.h", "stdalign.h", "stdarg.h", "stdatomic.h",
    "stdbool.h", "stddef.h", "stdint.h", "stdio.h", "stdlib.h", "stdnoreturn.h", "string.h", "tgmath.h",
    "threads.h", "time.h", "uchar.h", "wchar.h", "wctype.h"
  ]

  /** `inc_file in libc_headers`; a `None` target is never in the list. */
  predicate IsLibcHeader(t: Target) {
    t.Some? && t.value in LibcHeaders
  }

  /** Whether a matched target is kept: it is dropped only when suppression is on and it is a libc header. */
  predicate Keeps(nosysinc: bool, t: Target) {
    !(nosysinc && IsLibcHeader(t))
  }
}
