/**
 * Types, constants and C string helpers shared by the event bus model.
 * Pointers and callbacks are opaque identities; 0 stands for NULL.
 */
module Common {

  const UINT32_LIMIT: int := 0x1_0000_0000

  /** C `uint32_t`. */
  type u32 = x: int | 0 <= x < 0x1_0000_0000

  /** An opaque pointer (`void *` or a function pointer); only its identity matters. */
  type Ptr = nat

  const NULL: Ptr := 0

  // Capacities from includes/event_bus_dflt_cfg.h
  const MAX_NB_SUBSCRIBERS: nat := 16
  const MAX_NB_WORKERS: nat := 4
  const EVT_WORKER_MAX_NAME_LEN: nat := 16

  // Result codes from includes/event_bus_err.h
  const EVT_BUS_ERR_OK: int := 0
  const EVT_BUS_MEM_ERR: int := -1
  const EVT_BUS_THREAD_ERR: int := -2
  const EVT_BUS_QUEUE_ERR: int := -3
  const EVT_BUS_MUTEX_ERR: int := -4
  const EVT_WORKER_ERR: int := -5
  const EVT_BUS_LOCK_ERR: int := -6
  const EVT_BUS_ALLOC_ERR: int := -7
  const EVT_BUS_PUB_ERR: int := -8

  datatype Option<T> = None | Some(value: T)

  /** A buffer of `n` NUL characters, as left by `memset(buf, 0, n)`. */
  function Zeros(n: nat): (z: seq<char>)
    ensures |z| == n
    ensures forall i :: 0 <= i < n ==> z[i] == '\0'
  {
    seq(n, _ => '\0')
  }

  /** The C string a character buffer holds: its contents up to the first NUL. */
  function CString(buf: seq<char>): (s: seq<char>)
    ensures |s| <= |buf| && s == buf[..|s|]
    ensures '\0' !in s
    ensures |s| < |buf| ==> buf[|s|] == '\0'
  {
    if buf == [] || buf[0] == '\0' then []
    else
      var rest := CString(buf[1..]);
      assert buf[1..][..|rest|] == buf[1..|rest| + 1];
      [buf[0]] + rest
  }

  /** The three facts CString ensures determine it. */
  lemma CStringUnique(buf: seq<char>, s: seq<char>)
    requires |s| <= |buf| && s == buf[..|s|]
    requires '\0' !in s
    requires |s| < |buf| ==> buf[|s|] == '\0'
    ensures CString(buf) == s
  {
  }

  /** `strcpy(dst, src)` into a buffer large enough for `src` and its terminator:
      the buffer then holds `src`, and the bytes after the terminator are untouched. */
  function StrCpy(dst: seq<char>, src: seq<char>): (r: seq<char>)
    requires '\0' !in src && |src| < |dst|
    ensures |r| == |dst|
    ensures CString(r) == src
    ensures r[|src| + 1..] == dst[|src| + 1..]
  {
    var r := src + ['\0'] + dst[|src| + 1..];
    assert r[..|src|] == src;
    CStringUnique(r, src);
    r
  }
}
