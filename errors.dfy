/** The error taxonomy of the RCON client (`RconError`) and the crate's
    `Result<T>` alias. Messages that the source builds with `format!` are kept
    as structured reasons instead of rendered text. */
module Errors {
  import opened Wire

  /** The part of an `io::Error` that the model keeps: its kind. */
  datatype IoError =
    | UnexpectedEof          // read_exact ran out of bytes
    | BrokenPipe             // write_all on a socket the peer no longer reads
    | ConnectionRefused      // TcpStream::connect failed
    | OtherIo(kind: string)

  /** Why a frame was refused as `InvalidPacket`. */
  datatype PacketFault =
    | PayloadTooLarge(size: nat)                   // "Payload too large: {} bytes (max: {})"
    | PacketTooShort                               // "Packet too short (minimum 12 bytes required)"
    | LengthMismatch(declared: int32, got: nat)    // "Packet length mismatch: expected {}, got {}", expected = declared + 4 as usize
    | BodyTooShort(declared: int32)                // no message of its own: the corrected refusal of a size below 10
    | FrameTooShort(length: nat)                   // read_packet: "Packet too short: {} bytes"
    | FrameTooLarge(length: nat)                   // read_packet: "Packet too large: {} bytes"

  /** Why an exchange was refused as `Protocol`. */
  datatype ProtocolFault =
    | UnexpectedPacketType(packetType: int32)      // "Expected command response, got packet type: {}"
    | TooManyResponsePackets                       // "Too many response packets received"

  datatype RconError =
    | Network(cause: IoError)
    | Timeout
    | AuthenticationFailed
    | InvalidPacket(fault: PacketFault)
    | Protocol(problem: ProtocolFault)
    | Disconnected
    | CommandFailed(message: string)
    | InvalidConfig(message: string)

  /** `crate::error::Result<T>`. */
  datatype Result<+T> = Ok(value: T) | Err(error: RconError)
}
