/** Protocol constants of the badge (badge_controller/protocol.py): the
    GATT characteristics, the fixed AES key, the cipher block size and the
    largest image-upload payload per packet. */
module Protocol {
  import opened Bytes

  /** The badge's GATT characteristics (their UUIDs are not modelled). */
  datatype Characteristic = Command | ImageUpload | Write3 | Notify

  /** The fixed AES-128 key of the command channel: a protocol constant
      recovered from traffic captures, not a secret the model reasons about. */
  const AES_KEY: seq<byte> :=
    [0x34, 0x52, 0x2A, 0x5B, 0x7A, 0x6E, 0x49, 0x2C,
     0x08, 0x09, 0x0A, 0x9D, 0x8D, 0x2A, 0x23, 0xF8]

  const BLOCK_SIZE: nat := 16

  const MAX_IMAGE_PAYLOAD: nat := 98

  /** One AES block: exactly BLOCK_SIZE bytes. */
  type Block = s: seq<byte> | |s| == BLOCK_SIZE
    witness [0, 0, 0, 0, 0, 0, 0, 0, 0, 0, 0, 0, 0, 0, 0, 0]
}
