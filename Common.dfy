/**
 * Shared declarations of netstream: the constants of netstream.h and buffer.h,
 * the endpoint enumerations, and the endpoint configuration record.
 */
module Common {

  /** A byte of a payload (the source moves `char` buffers with memcpy/read/write). */
  newtype Byte = b: int | 0 <= b < 256

  datatype Option<+T> = None | Some(value: T)

  // Sizes of the read chunk and of the per-output ring buffer.
  const ReadBufferBlockSize: int := 1024
  const WriteBufferBlockSize: int := 1024
  const WriteBufferBlockCount: int := 128
  const MaxOutputs: int := 100

  // Length tags stored in a ring-buffer slot in place of a payload length.
  const BufEndData: int := -1
  const BufKill: int := -2

  // Verbosity levels (enum verbosity). Its values are 0..7, none negative, so the
  // compiler gives the enum the type unsigned int: a configured verbosity is always
  // one of these levels.
  const Quiet: int := 0
  const Alert: int := 1
  const Crit: int := 2
  const Err: int := 3
  const Warn: int := 4
  const Notice: int := 5
  const Info: int := 6
  const Debug: int := 7

  // Protocol numbers stored in `protocol` (IPPROTO_TCP, IPPROTO_UDP); -1 is "undefined".
  const IpProtoTcp: int := 6
  const IpProtoUdp: int := 17

  datatype Dir = DirInput | DirOutput | DirInval
  datatype EndptType = TSocket | TFile | TStd | TInval
  datatype Retry = No | Yes | Ignore | Kill

  /**
   * One endpoint's configuration (struct endpt_cfg). The buffer and dead-list
   * pointers are not fields here: an output driver holds its buffer directly.
   */
  datatype EndptCfg = EndptCfg(
    dir: Dir,
    kind: EndptType,
    retry: Retry,
    name: Option<string>,
    port: Option<string>,
    protocol: int,
    keepalive: int,
    exitStatus: int,
    testOnly: bool)
}
