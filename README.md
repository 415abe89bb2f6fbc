# cidr2ips: a verified model of the CIDR expander

`cidr2ips` turns CIDR blocks such as `192.168.0.0/30` or `2001:db8::/126`
into the list of their host addresses, one per line, in ascending order.
This project models the expander at its heart, `extractIPsFromCIDR` in
`main.go`, together with the four address/integer conversions it uses.
Each piece is proved against a specification of the host range.

- **IPv4 blocks** are walked in `uint32` arithmetic.
  - The broadcast address is `start | ^mask` and the block size is `broadcast - start + 1`.
  - When the size is above 2, every value strictly between the network and the broadcast address is emitted.
  - Blocks of prefix 31 and 32 emit nothing.
- **IPv6 blocks** are walked with an unbounded (`big.Int`) counter.
  - The block size is `2^(128 - prefix)`.
  - Every address after the network address is emitted, the last one of the block included.
  - A /128 block emits nothing.
- **A CIDR that does not parse** yields only an error message.

## Layout

- `go_ints.dfy` (module `GoInts`): Go's `uint32` operators over integers.
  - Shifts, `^`, wrapping `+` and `-`, `byte(...)` truncation.
  - Bitwise `&` and `|` defined bit by bit, with lemmas giving their arithmetic meaning for prefix masks.
- `net_ip.dfy` (module `NetIP`): byte-sequence stand-ins for the library calls the expander makes.
  - From `net`: `net.IP`, `net.IPv4`, `IP.To4`, `IP.To16`, `net.CIDRMask`.
  - From `math/big`: `SetBytes`, `Bytes`.
  - Also the left zero-padding that `bigIntToIP` builds with `make`/`append`.
- `conversions.dfy` (module `Conversions`): `ip4ToUint32`, `uint32ToIP`, `ipToBigInt` and `bigIntToIP`, with their round trips.
- `hosts.dfy` (module `Hosts`): the host range of a block as a specification over integers.
  - Which values are hosts, how many there are, and how the broadcast address and the wrapped block size relate to it.
- `expander.dfy` (module `Expander`): the two counting loops as methods proved against that specification, and `extractIPsFromCIDR` as written.
  - Also the corrected IPv4 branch (see Findings) and lemmas about the addresses a parsed block yields.

The input is the result `net.ParseCIDR` would return: a parse error, or the address, the network address and the prefix length. `WellFormed` states what that function guarantees:
- the network is the address and-ed with the prefix mask;
- an IPv4 block has a 4-byte network, an IPv6 block a 16-byte one.

Printing is replaced by appending the `net.IP` that would be printed to an output sequence.

## Model

| member | source | states |
|---|---|---|
| Conversions.Ip4ToUint32 | main.go:54-57 | the shifted and or-ed octets are the big-endian value of the address's 4-byte form |
| Conversions.Uint32ToIp | main.go:60-62 | the result is a 16-byte IPv4 address whose four octets are the big-endian bytes of n |
| Conversions.IpToBigInt | main.go:65-68 | a 16-byte address becomes its big-endian value, below 2^128; a nil `To16` gives 0 |
| Conversions.BigIntToIp | main.go:72-88 | IPv4 form: a 16-byte IPv4 address made of the low 4 bytes of i; IPv6 form: at least 16 bytes, and for i below 2^128 exactly the 16-byte big-endian encoding of i |
| Conversions.Uint32RoundTrip | main.go:54-62 | ip4ToUint32(uint32ToIP(n)) == n for every uint32 n |
| Conversions.Ip4RoundTrip | main.go:54-62 | an IPv4 address's four octets survive the trip through a uint32 |
| Conversions.Ip6RoundTrip | main.go:65-88 | bigIntToIP(ipToBigInt(ip), false) gives back any 16-byte address |
| Conversions.BigIntRoundTrip | main.go:65-88 | every value below 2^128 becomes a 16-byte address that ipToBigInt reads back as the same value |
| Conversions.BigIntToIp4Truncates | main.go:72-80 | bigIntToIP(i, true) keeps the last 4 bytes: it equals uint32ToIP(i mod 2^32) |
| Conversions.PackOctets | main.go:56 | the four shifted octets do not overlap, so or-ing them adds them, giving a value below 2^32 |
| Conversions.UnpackOctets | main.go:61 | shifting and masking with 0xFF picks out the four big-endian bytes of n |
| GoInts.Not32 | main.go:27 | `^x` on a uint32 is 2^32 - 1 - x |
| GoInts.Not32Flips | main.go:27 | `^x` flips all 32 bits: x & ^x is 0 and x \| ^x is 0xFFFFFFFF |
| GoInts.Complement | main.go:27 | two values adding up to 2^n - 1 share no bit and together set all n bits |
| GoInts.Add32 | main.go:28 | uint32 addition wraps modulo 2^32 |
| GoInts.Sub32 | main.go:28 | uint32 subtraction wraps modulo 2^32 |
| GoInts.ToByte | main.go:61 | `byte(x)` keeps values below 256 unchanged |
| GoInts.ShrIsDiv | main.go:61 | `x >> k` is x divided by 2^k |
| GoInts.OrDisjoint | main.go:56 | or-ing a value shifted left by h bits with a value below 2^h adds them |
| GoInts.OrLowOnes | main.go:27 | or-ing with 2^h - 1 sets the low h bits: x - x mod 2^h + 2^h - 1 |
| GoInts.AndLowOnes | main.go:61 | and-ing with 2^h - 1 keeps the low h bits: x mod 2^h |
| GoInts.AndHighMask | main.go:16 | and-ing an n-bit value with the mask of its top n - h bits clears its low h bits |
| GoInts.InBlock | main.go:26-33 | an n-bit x masks to an aligned start exactly when start <= x < start + 2^h |
| NetIP.IPv4 | main.go:61 | `net.IPv4` always yields the 16-byte form |
| NetIP.To4 | main.go:23-26 | `To4` succeeds exactly on 4-byte addresses and 16-byte IPv4-mapped ones, giving 4 bytes |
| NetIP.To16 | main.go:66 | `To16` succeeds exactly on 4- and 16-byte addresses, giving 16 bytes |
| NetIP.SetBytes | main.go:67 | the big-endian value of n bytes is below 2^(8n) |
| NetIP.Bytes | main.go:73 | `Bytes()` is the shortest big-endian encoding, with no leading zero byte, and SetBytes reads it back as the value |
| NetIP.CidrMask | main.go:26 | the mask of `ones` of 8 len bits has len bytes and value 2^(8 len) - 2^(8 len - ones) |
| NetIP.LeftPad | main.go:76-86 | padding on the left yields max(n, len) bytes |
| NetIP.PadKeepsLowBytes | main.go:75-80 | after padding to 4 bytes, the last 4 bytes are the low 4 bytes of the value |
| NetIP.PadExact | main.go:83-87 | a value below 2^128 padded to 16 bytes is exactly its 16-byte encoding |
| NetIP.SetBytesFixed | main.go:67 | reading the n low bytes of x gives x mod 2^(8n) |
| NetIP.FixedSetBytes | main.go:65-68 | encoding the value of n bytes in n bytes gives the same bytes back |
| Hosts.Range | main.go:31 | the integers lo .. hi - 1, in ascending order, each once |
| Hosts.V4Hosts | main.go:28-33 | a block of size above 2 has size - 2 hosts, start + 1, start + 2, ... in order |
| Hosts.V6Hosts | main.go:37-48 | an IPv6 block has 2^(128 - p) - 1 hosts, start + 1, start + 2, ... in order |
| Hosts.RangeSnoc | main.go:31 | one more counter step appends the next integer to the range |
| Hosts.V4HostsFit | main.go:31-32 | an aligned IPv4 block ends within 2^32, so every host value is a uint32 |
| Hosts.V6HostsFit | main.go:44-46 | an aligned IPv6 block ends within 2^128, so every host value fits in 16 bytes |
| Hosts.V4BroadcastIsLast | main.go:27 | start <= start \| ^mask, which is the last address of the block, start + 2^(32 - p) - 1 |
| Hosts.V4HostsBetween | main.go:28-33 | when broadcast - start + 1 > 2 the hosts are exactly the values strictly between start and broadcast; otherwise there are none |
| Hosts.V4TotalWraps | main.go:28 | the uint32 total is the block size for prefixes 1..32 and wraps to 0 for prefix 0 |
| Hosts.V4SlashZeroEmitsNothing | main.go:28-30 | 0.0.0.0/0 has 2^32 - 2 hosts but a wrapped total of 0 |
| Hosts.V6HostsRange | main.go:38-48 | for total = 2^(128 - p) > 1 the hosts are network + 1 .. network + total - 1; for /128 there are none |
| Hosts.Consecutive | main.go:31 | a run of consecutive integers from lo holds exactly lo .. lo + length - 1 |
| Hosts.V4HostsExactly | main.go:26-33 | x is an IPv4 host exactly when x is a uint32 that masks to the network and is neither the network nor the broadcast address |
| Hosts.V6HostsExactly | main.go:37-48 | x is an IPv6 host exactly when x is below 2^128, masks to the network, and is not the network address |
| Hosts.V4HostCount | main.go:28-33 | a block of prefix p has 2^(32 - p) - 2 hosts for p <= 30 and none for /31 and /32 |
| Hosts.V4Slash30Example | main.go:28-33 | 192.168.0.0/30 has exactly the hosts 192.168.0.1 and 192.168.0.2 |
| Hosts.V4Slash31Example | main.go:28-30 | 192.168.0.0/31 has no hosts |
| Hosts.V6Slash126Example | main.go:37-48 | 2001:db8::/126 has exactly the hosts ::1, ::2 and ::3 of that network, the last address included |
| Expander.EmitV4Range | main.go:31-33 | the uint32 loop emits the address of every value strictly between start and broadcast, in ascending order |
| Expander.ExpandV4 | main.go:23-34 | the IPv4 branch as written: nothing for prefix 0, the block's hosts for every other prefix |
| Expander.ExpandV4Intended | main.go:23-34 | the IPv4 branch with the block size counted without wrap-around: the block's hosts for every prefix |
| Expander.EmitV6Range | main.go:42-48 | the big.Int loop emits network + 1 .. network + total - 1, in ascending order |
| Expander.ExpandV6 | main.go:35-49 | the IPv6 branch emits exactly the block's hosts, the last address included; /128 emits nothing |
| Expander.ExtractIPsFromCidr | main.go:15-51 | a parse error yields only the error message; otherwise no error, nothing for an IPv4 /0, and the block's host addresses for every other block |
| Expander.ExtractIPsFromCidrIntended | main.go:15-51 | the corrected expander: a parse error yields only the error message, and every parsed block yields exactly its host addresses |
| Expander.NetworkIsAligned | main.go:16-24 | the parsed network has all its host bits clear: it is a multiple of 2^(bits - prefix) |
| Expander.V4Mask | main.go:26 | the uint32 mask of prefix p is 2^32 - 2^(32 - p) |
| Expander.V4AddressesSnoc | main.go:31-33 | one more IPv4 loop pass appends the address of the counter |
| Expander.V6AddressesSnoc | main.go:44-47 | one more IPv6 loop pass appends the address of network + i |
| Expander.V4AddressesDecode | main.go:32 | every emitted IPv4 address reads back through ip4ToUint32 as its host value |
| Expander.V6AddressesDecode | main.go:46 | every emitted IPv6 address is 16 bytes and reads back through ipToBigInt as its host value |
| Expander.V4HostAddresses | main.go:28-33 | an IPv4 block yields 2^(32 - p) - 2 addresses (none for /31, /32), reading back as start + 1, start + 2, ... |
| Expander.V4HostsInNetwork | main.go:26-33 | every yielded IPv4 address masks back to the network and is neither the network nor the broadcast address |
| Expander.V6HostAddresses | main.go:37-48 | an IPv6 block yields 2^(128 - p) - 1 addresses of 16 bytes, reading back as start + 1, ..., the last being start + 2^(128 - p) - 1 |
| Expander.V6HostsInNetwork | main.go:37-48 | every yielded IPv6 address masks back to the network and is not the network address |

## Left out

- `main` and `readCIDRsFromStdinOrFile` (main.go:91-154) are not part of this model. They handle flags, terminal detection, file and stdin reading, and exit codes, all of which are I/O.
- Parsing a CIDR string (`net.ParseCIDR`) is the library's work. The model takes its result as input and states its guarantee as `WellFormed`.
- Rendering addresses as text (`IP.String()`) and printing them are left out. The model emits the `net.IP` values that would be rendered.
- IPv4-mapped IPv6 blocks such as `::ffff:a.b.c.d/120` are excluded by `WellFormed`. For them `ip.To4()` sends the block into the IPv4 branch (main.go:23). There the 16-byte CIDR mask has no 4-byte form, and below /96 neither does the network, so `ip4ToUint32` indexes a nil slice (main.go:25-26, 55-56). The program panics and the rest of the batch is lost. The model does not describe that panic.
- Streaming is not modelled. The output is one sequence, not a line-by-line stream of unbounded length, and memory use is not modelled.
- The `net` and `math/big` functions are modelled by their documented behaviour, not by their source. This covers `IPv4`, `To4`, `To16`, `CIDRMask`, `SetBytes`, `Bytes` and `Mask.Size`.
- Conversions.BigIntToIp: for the IPv6 form with a value of 2^128 or more, the contract states only that the result has at least 16 bytes, not which bytes they are. The expander never passes such a value.

## Findings

| source | as written | input that shows it | evidently intended | confidence | as-written member | corrected member |
|---|---|---|---|---|---|---|
| main.go:28-30 | `total := broadcast - start + 1` is computed in `uint32`, so for a /0 block 2^32 wraps to 0 and the `total > 2` test fails | `0.0.0.0/0`: start 0, broadcast 0xFFFFFFFF, total 0, no output | the block has more than two addresses, so all 2^32 - 2 hosts are emitted, as for every other prefix up to 30 | not executed | Expander.ExpandV4, Hosts.V4SlashZeroEmitsNothing | Expander.ExpandV4Intended, Expander.ExtractIPsFromCidrIntended |
