/** The numbers that several parts of the protocol share: src/proto/methods.c lines 34 to 39, src/utils/utils.h. */
module Common {
  import opened Bytes

  const STATUS_OK: byte := 1
  const STATUS_NO_DATA: byte := 2

  /** What _send_ack sends and _read_ack expects. */
  const ACK: byte := 1

  const MAX_FILE_NAME_LEN := 2048
  const FILE_BUF_SZ := 65536
}
