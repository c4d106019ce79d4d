# php-gre-tunnel in Dafny

A model of the core of php-gre-tunnel, a point-to-point GRE tunnel. The
tunnel wraps frames read from a local raw socket in a GRE header and sends
them to a remote peer. It also strips the outer IPv4 header and the GRE
header from packets arriving from the peer and hands their payload to the
local socket.

The model has three modules:

- `Gre` (`gre.dfy`) holds the header record, its encoder `pack_header` and its
  decoder `unpack_header`. The wire layout is that of RFC 2784, section 2.1,
  with the Key and Sequence Number fields of RFC 2890, sections 2.1 and 2.2.
  Octets are `bv8` and every header field is a bit-vector of its wire width
  (`bv9` reserved0, `bv3` version, `bv16`, `bv32`). The decoder exists twice:
  - as the function `Unpack`;
  - as the method `UnpackHeader`, which fills in a default header while a
    cursor advances over the optional fields, and is proved equal to `Unpack`.
- `PhpStrings` (`php_strings.dfy`) holds the two PHP built-ins the argument
  scanner applies: `strtolower` (ASCII) and `trim` with its default character
  list.
- `Tunnel` (`tunnel.dfy`) holds the relay in `tunnel.php`:
  - the per-frame transforms of both directions;
  - the receive-transform-send loop both forwarding functions share, run over
    the sequence of buffers the socket delivers;
  - the keyword scanner `parse_argv`, as a loop proved against a recursive
    specification `ParsedArgs`.

Main results:

- Decoding an encoded header gives it back, with absent optional fields
  reading as 0.
- Encoding a decoded buffer gives it back exactly when bit 0x40 of octet 0 is
  clear. That bit is the one bit of the first word the decoder never reads.
- A frame encapsulated on one side is decapsulated to the same frame on the
  other side, whatever its outer header.
- The forwarding loops map each buffer, in order, until the first empty
  buffer.
- `parse_argv` only yields the keys `remote` and `local`. Each value was read
  right after its keyword. A later occurrence of a keyword overrides an
  earlier one. A value is null only when a keyword is the last argument.

## Model

| member | source | states |
|---|---|---|
| Gre.NewHeader | src/GRE.php:13-25 | the default header (no flags, reserved0 and version 0, IPv4 protocol type, empty payload) encodes to the four octets 00 00 08 00 |
| Gre.Pack | src/GRE.php:32-59 | the encoding is 4 octets plus 4 per present optional field, followed by the payload unchanged |
| Gre.PackLayout | src/GRE.php:40-55 | octets 0-1 hold the flags word and octets 2-3 the protocol type; checksum and reserved1 sit at 4 and 6, the key right after them and the sequence number last, each only when its flag is set |
| Gre.FlagsWordFields | src/GRE.php:40-43 | the flags word holds checksum-present at bit 15, key-present at 13, sequence-present at 12, reserved0 in bits 3-11 and the version in bits 0-2; bit 14 is always clear |
| Gre.SingleFlagWords | src/GRE.php:40-43 | with reserved0 and version 0, checksum alone gives word 0x8000, key alone 0x2000, sequence alone 0x1000, none 0 |
| Gre.PackIgnoresAbsentFields | src/GRE.php:47-55 | two headers that differ only in optional fields whose flag is clear encode identically |
| Gre.Be16 | src/GRE.php:45 | `pack("n")`: two octets that read back, most significant first, as the 16-bit value |
| Gre.Be32 | src/GRE.php:51 | `pack("N")`: four octets that read back, most significant first, as the 32-bit value |
| Gre.Unpack | src/GRE.php:65-108 | decoding succeeds exactly when the input has 4 octets and every optional field its flags declare; the decoded header has that declared length and its payload is the rest of the input |
| Gre.UnpackHeader | src/GRE.php:65-108 | the cursor-driven decoder returns the same result as `Unpack` on every input |
| Gre.FlagsOctets | src/GRE.php:69-73 | the decoder's masks and shifts on octets 0-1 recover exactly the three flags, reserved0 and version the encoder wrote, and bit 0x40 of octet 0 is clear |
| Gre.UnpackPack | src/GRE.php:32-108 | decode(encode(h)) is h with absent optional fields set to 0 |
| Gre.RepackRestoresAllButBit6 | src/GRE.php:32-108 | encode(decode(b)) equals b with bit 0x40 of octet 0 cleared |
| Gre.PackUnpack | src/GRE.php:32-108 | encode(decode(b)) == b if and only if bit 0x40 of octet 0 is clear |
| PhpStrings.LowerChar | tunnel.php:85 | the result is never an upper-case ASCII letter; a capital letter moves up by 32 and any other character is unchanged |
| PhpStrings.ToLower | tunnel.php:85 | same length; each capital A-Z becomes its lower-case letter (code point + 32) and every other character is unchanged |
| PhpStrings.Trim | tunnel.php:85 | the result is a contiguous slice of the input that neither starts nor ends with a trimmed character, and everything cut off on either side is a trimmed character |
| Tunnel.Encapsulate | tunnel.php:54-58 | the packet sent to the peer is 00 00 08 00 followed by the frame |
| Tunnel.StripOuterHeader | tunnel.php:70 | the frame is its first 20 octets followed by the result; a frame shorter than 20 octets leaves nothing |
| Tunnel.Decapsulate | tunnel.php:70-74 | the payload forwarded locally is what follows the outer header and the GRE header its flags declare, or empty when the frame is too short for them |
| Tunnel.DecapsulateFrame | tunnel.php:70-74 | stripping and decoding with the cursor-driven decoder forwards exactly `Decapsulate` of the frame |
| Tunnel.DecapsulateIgnoresOuterHeader | tunnel.php:70 | the content of the 20-octet outer header never affects the forwarded payload |
| Tunnel.DecapsulateEncapsulate | tunnel.php:54-75 | a frame encapsulated on one side and received under any 20-octet outer header is forwarded unchanged on the other side |
| Tunnel.Relay | tunnel.php:51-77 | the `while (socket_recv(...))` loop of both directions (lines 51-61 and 67-77): the buffers sent are the transform of the buffers received, one for one and in order, up to the first empty buffer or the end |
| Tunnel.ForwardLocalPackets | tunnel.php:49-63 | every buffer received locally before the first empty one is sent encapsulated, in order |
| Tunnel.ForwardRemotePackets | tunnel.php:65-79 | every buffer received from the peer before the first empty one is sent decapsulated, in order |
| Tunnel.ParseArgv | tunnel.php:81-93 | the loop, including its skip past a keyword's value, builds the map `ParsedArgs` specifies |
| Tunnel.ParsedKeysAreKeywords | tunnel.php:85-87 | the parsed map has no keys besides "remote" and "local" |
| Tunnel.ParsedValueFollowsKeyword | tunnel.php:84-88 | every stored value is the argument right after some argument that normalises to its key (null when that argument is the last) |
| Tunnel.ParsedArgsAppend | tunnel.php:84-89 | when the scan of a prefix ends inside it, parsing prefix + rest is parsing each part, with the rest's keys overriding |
| Tunnel.LastOccurrenceWins | tunnel.php:87 | a keyword followed by a value as the last two arguments decides that key's value |
| Tunnel.KeywordValueIsNotScanned | tunnel.php:87 | the argument after a keyword adds no key, even when it is itself a keyword |
| Tunnel.ValuesPresentWhenScanEndsInside | tunnel.php:87 | when no keyword is the last scanned argument, every value in the map is present (not null) |
| Tunnel.ParseArgvExample | tunnel.php:81-93 | " Local" and "REMOTE\n" are recognised as keywords, and "remote" given twice keeps its second value |

## Left out

- Socket creation, binding, connecting, receiving and sending are not modelled. A forwarding loop takes the buffers `socket_recv` fills, in order, and returns the buffers handed to `socket_send`. A receive error and a zero-length receive both end the loop, so both appear as an empty buffer.
- The 65535-octet receive cap is not modelled. Buffers of any length are accepted.
- `pcntl_fork`, the two processes running the two directions, `main`, the Linux and root checks, `shutdown`, `print_gre_header` and `print_terminal` are not modelled. They are process control, side effects and logging.
- No checksum is computed. `pack_header` writes whatever the checksum field holds and `unpack_header` reads it back, so the model treats it as an opaque 16-bit field. The code computes no checksum, so no RFC 1071 checksum is modelled.
- Gre.Unpack: on input shorter than 4 octets or than its flags declare, the source still returns a header. The missing octets read as 0 (PHP null), and `substr` past the end gives the empty payload. The model returns `Err(TruncatedHeader)` there and does not model the partially filled fields. In all of those cases the relay forwards an empty payload, as the source does.
- A malformed frame is not discarded: the relay forwards a zero-length payload, and the model does the same.
- Field values outside their wire width are not modelled because the bit-vector types exclude them. In the source such values are not rejected: the code has no error for a field that is too wide. A protocol type, checksum, reserved1, key or sequence number too wide for its field is cut to its low bits by `pack`. A reserved0 above 511 spills into the flag bits, and a version number above 7 spills into reserved0, through the OR that builds the flags word. A flags word that ends up wider than 16 bits is then cut by `pack("n2")`.
- The Routing field of RFC 1701 is not modelled. Its Routing Present bit (0x40 of octet 0) is ignored by the decoder and never set by the encoder, in the model as in the source; `PackUnpack` states the consequence.
- `ETHER_TYPE_IPv6` is declared as a constant and is not otherwise used, as in the source.
- The outer header is always taken to be 20 octets, as in the source. IPv4 options (IHL above 5) are not considered.
- PhpStrings.ToLower: maps ASCII letters only, which is `strtolower` from PHP 8.2 on. The locale-dependent behaviour of earlier PHP versions is not modelled.
- Arguments are Dafny strings (sequences of Unicode characters), while PHP's `$argv` holds byte strings. Which arguments match a keyword is the same either way, because the keywords and the trimmed characters are all ASCII. An argument value that is not valid UTF-8 cannot be represented.
- Tunnel.ParseArgv: `$argc` is taken to equal the number of arguments. A keyword given as the last argument stores `None`, which is PHP's null read past the end of `$argv`. The warning PHP emits for it is not modelled.
- `prepare_local_socket` and `prepare_remote_socket` are not modelled. The failure when `$argv["local"]` or `$argv["remote"]` is missing or null happens in those functions, outside the scanner.
