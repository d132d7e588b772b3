/** Calls into code outside the model whose only relevance here is that they
    may fail: memory allocation, object creation in libwayland, the buffer
    code's `next_buffer`, and the connection's dispatch and flush.  Each returns
    an arbitrary outcome, so that everything proved about their callers holds
    for both. */
module Environment {

  /** `calloc` returned non-null. */
  method Allocate() returns (ok: bool)
  {
    ok := *;
  }

  /** A libwayland constructor request returned a non-null proxy. */
  method CreateProxy() returns (ok: bool)
  {
    ok := *;
  }

  /** `next_buffer` (src/buffer.h:21-22) found a free buffer of the size asked for. */
  method NextBuffer() returns (ok: bool)
  {
    ok := *;
  }

  /** `wl_display_dispatch` did not return -1. */
  method Dispatch() returns (ok: bool)
  {
    ok := *;
  }

  /** `wl_display_flush` did not return -1. */
  method Flush() returns (ok: bool)
  {
    ok := *;
  }
}
