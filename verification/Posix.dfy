/** Reading an ordinary file through a descriptor. */
module Posix {
  import opened Common

  /**
   read from the file: any number of bytes up to `max`, 0 only at the end of the file, -1 on error, which does not
   happen while the file is `reliable`.  While reads are `full` they give all the bytes there are.
   */
  method ReadFile(file: seq<Byte>, at: nat, max: nat, reliable: bool, full: bool) returns (len: int)
    requires at <= |file| && max > 0
    ensures -1 <= len <= max && at + len <= |file|
    ensures len == 0 ==> at == |file|
    ensures reliable ==> len >= 0
    ensures full && len >= 0 ==> len == Min(max, |file| - at)
  {
    len := *;
    if len < 0 && !reliable {
      len := -1;
    } else if full || len <= 0 || len > Min(max, |file| - at) {
      len := Min(max, |file| - at);
    }
  }
}
