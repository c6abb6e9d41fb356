/** Message codes, flags, limits and size tables of SPDM 1.0 and 1.1 as the library defines them. */
module Spdm {
  import opened Bytes

  // Protocol versions
  const VERSION_10: byte := 0x10
  const VERSION_11: byte := 0x11

  // Response codes
  const DIGESTS: byte := 0x01
  const CERTIFICATE: byte := 0x02
  const CHALLENGE_AUTH: byte := 0x03
  const VERSION: byte := 0x04
  const MEASUREMENTS: byte := 0x60
  const CAPABILITIES: byte := 0x61
  const ALGORITHMS: byte := 0x63
  const KEY_EXCHANGE_RSP: byte := 0x64
  const FINISH_RSP: byte := 0x65
  const PSK_EXCHANGE_RSP: byte := 0x66
  const PSK_FINISH_RSP: byte := 0x67
  const END_SESSION_ACK: byte := 0x6C
  const ERROR: byte := 0x7F

  // Request codes
  const GET_DIGESTS: byte := 0x81
  const GET_CERTIFICATE: byte := 0x82
  const CHALLENGE: byte := 0x83
  const GET_VERSION: byte := 0x84
  const GET_MEASUREMENTS: byte := 0xE0
  const GET_CAPABILITIES: byte := 0xE1
  const NEGOTIATE_ALGORITHMS: byte := 0xE3
  const KEY_EXCHANGE: byte := 0xE4
  const FINISH: byte := 0xE5
  const PSK_EXCHANGE: byte := 0xE6
  const PSK_FINISH: byte := 0xE7

  // Error codes
  const INVALID_REQUEST: byte := 0x01
  const BUSY: byte := 0x03
  const UNEXPECTED_REQUEST: byte := 0x04
  const DECRYPT_ERROR: byte := 0x06
  const UNSUPPORTED_REQUEST: byte := 0x07
  const REQUEST_IN_FLIGHT: byte := 0x08
  const SESSION_LIMIT_EXCEEDED: byte := 0x0A
  const RESPONSE_NOT_READY: byte := 0x42
  const REQUEST_RESYNCH: byte := 0x43

  // Capability flags (the same bit has the same meaning for both roles)
  const CERT_CAP: u32 := 0x2
  const CHAL_CAP: u32 := 0x4
  const MEAS_CAP: u32 := 0x18
  const MEAS_CAP_NO_SIG: u32 := 0x8
  const ENCRYPT_CAP: u32 := 0x40
  const MAC_CAP: u32 := 0x80
  const MUT_AUTH_CAP: u32 := 0x100
  const KEY_EX_CAP: u32 := 0x200
  const PSK_CAP: u32 := 0xC00
  const PSK_CAP_RESPONDER_WITH_CONTEXT: u32 := 0x800
  const HANDSHAKE_IN_THE_CLEAR_CAP: u32 := 0x8000
  const PUB_KEY_ID_CAP: u32 := 0x1_0000

  // Limits
  const MAX_MESSAGE_BUFFER: nat := 0x1200
  const MAX_SMALL_BUFFER: nat := 0x100
  const MAX_CERT_CHAIN: nat := 0x1000
  const MAX_CERT_BLOCK: nat := 1024
  const MAX_SLOTS: nat := 8
  const MAX_SESSIONS: nat := 4
  const MAX_VERSIONS: nat := 5
  const MAX_OPAQUE: nat := 1024
  const MAX_HASH: nat := 64
  const MAX_ASYM_KEY: nat := 512
  const MAX_DHE_KEY: nat := 512
  const NONCE_SIZE: nat := 32

  // Struct-table algorithm types
  const ALG_DHE: byte := 2
  const ALG_AEAD: byte := 3
  const ALG_REQ_BASE_ASYM: byte := 4
  const ALG_KEY_SCHEDULE: byte := 5

  const MEASUREMENT_SPEC_DMTF: byte := 1
  const KEY_SCHEDULE_HMAC_HASH: u16 := 1

  /** Digest size of a negotiated base hash; 0 when the word is not one known algorithm. */
  function HashSize(alg: u32): (n: nat)
    ensures n == 0 || 32 <= n <= MAX_HASH
  {
    if alg == 0x1 || alg == 0x8 then 32
    else if alg == 0x2 || alg == 0x10 then 48
    else if alg == 0x4 || alg == 0x20 then 64
    else 0
  }

  /** Measurement hash size; the raw bit stream has no fixed size and reports the all-ones word. */
  function MeasurementHashSize(alg: u32): nat {
    if alg == 0x2 || alg == 0x10 then 32
    else if alg == 0x4 || alg == 0x20 then 48
    else if alg == 0x8 || alg == 0x40 then 64
    else if alg == 0x1 then 0xFFFF_FFFF
    else 0
  }

  function SignatureSize(alg: u32): (n: nat)
    ensures n == 0 || 64 <= n <= MAX_ASYM_KEY
  {
    if alg == 0x1 || alg == 0x2 then 256
    else if alg == 0x4 || alg == 0x8 then 384
    else if alg == 0x20 || alg == 0x40 then 512
    else if alg == 0x10 then 64
    else if alg == 0x80 then 96
    else if alg == 0x100 then 132
    else 0
  }

  function DhePubKeySize(alg: u16): (n: nat)
    ensures n == 0 || 64 <= n <= MAX_DHE_KEY
  {
    if alg == 0x1 then 256
    else if alg == 0x2 then 384
    else if alg == 0x4 then 512
    else if alg == 0x8 then 64
    else if alg == 0x10 then 96
    else if alg == 0x20 then 132
    else 0
  }

  function AeadKeySize(alg: u16): nat {
    if alg == 0x1 then 16
    else if alg == 0x2 || alg == 0x4 then 32
    else 0
  }

  function ErrorMessage(version: byte, code: byte, data: byte): (m: seq<byte>)
    ensures |m| == 4 && m[1] == ERROR && m[2] == code
  {
    [version, ERROR, code, data]
  }
}
