# Bluetooth LE L2CAP throughput client — a Dafny model

The client opens an L2CAP connection-oriented channel to a fixed peer and
streams 2 MiB of data in 512-byte writes, measuring throughput. Next to the
transfer it has two link-tuning helpers. They build the parameter blocks of
two LE controller commands: LE Connection Update (Bluetooth Core
Specification, Vol 4, Part E, section 7.8.18) and LE Set PHY (Vol 4, Part E,
section 7.8.49, OCF 0x0032). All of it lives in `client.c`.

This project models two parts of that file and proves properties of them.

- `transfer_loop.dfy`, module `TransferLoop`: the `while (total_sent < TOTAL_SIZE)`
  loop of `main`, modelled as the method `Transfer`.
  - The socket's `write` is an oracle `write(k, n)`: what the k-th call
    returns when asked for `n` bytes.
  - The method returns the final `total_sent`, the log of every `write` call,
    and the `total_sent` value of every progress line.
  - It is proved equal to the recursive function `RunFrom`, taken from
    `total_sent == 0`.
  - `RunFrom` is parametric in the payload size and the chunk size, so the
    general properties hold for any sizes. The 2 MiB / 512-byte instance is
    then one corollary.
- `hci_params.dfy`, module `HciParams`: the packed structs that
  `send_conn_update` and `set_2m_phy` fill in.
  - Each struct becomes an encoder to bytes, with a decoder as its inverse.
  - 16-bit fields are little-endian, as `htobs` leaves them.
  - `set_2m_phy`'s struct does not match section 7.8.49 (see Findings). The
    model keeps the block as written and also gives the corrected 7-byte
    block.

Notes on what the code does:

- On a write error the loop only `break`s. It then prints the summary and
  exits with status 0. No separate partial-failure result is produced. The
  model's failure signal is the last logged call having a result ≤ 0.
- The connection-update block has seven 16-bit fields, including the two
  connection-event lengths. It is 14 bytes long.
- `main` never calls `get_conn_handle`, `send_conn_update` or `set_2m_phy`.
  The `hci_sock` it opens is never used, so no tuning-before-transfer order
  is modelled.

## Model

| member | source | states |
|---|---|---|
| `TransferLoop.Transfer` | client.c:169-189 | The loop's final `total_sent`, its sequence of `write` calls (the `total_sent` before each call, the size asked for, the result) and its progress lines are exactly those of the recursive function `RunFrom` taken from `total_sent == 0` |
| `TransferLoop.RunFrom` | client.c:169-189 | The loop from a given `total_sent` onwards, for any payload and chunk size: `total_sent` never goes down, and `write` is called at least once if and only if something is left to send |
| `TransferLoop.ChunkRequest` | client.c:170-173 | The size asked of `write` is the smaller of a whole chunk and the bytes still to send: it is at most each, and equal to one of them |
| `TransferLoop.RequestsBounded` | client.c:169-173 | Every `write` is made only while `total_sent < TOTAL_SIZE`, and asks for at most `CHUNK_SIZE` and at most `TOTAL_SIZE - total_sent` bytes. The last request is clamped to the remainder |
| `TransferLoop.CallsChain` | client.c:169-181 | The calls form one chain from the starting value. Every call but the last had a positive result, and the next call starts at the previous `total_sent` plus that result, so `total_sent` strictly increases. A result ≤ 0 can only be the last call (the `break`), and it leaves `total_sent` where it was. No call is made when nothing is left to send |
| `TransferLoop.CallsFollowOracle` | client.c:175 | Each logged result is the socket's answer to that call's index and requested size |
| `TransferLoop.RunOutcome` | client.c:169-181 | Final `total_sent` is the start plus every positive `write` result, short ones included. The loop ends below `TOTAL_SIZE` if and only if its last `write` returned ≤ 0. It never passes `TOTAL_SIZE` when `write` never reports more than it was asked for |
| `TransferLoop.ProgressLines` | client.c:181-188 | A progress line is printed for a value exactly when some positive `write` left `total_sent` at it and it is a multiple of 256 KiB. The lines come out strictly increasing and above the starting value |
| `TransferLoop.CompleteWritesSendAll` | client.c:169-181 | When every write is complete, for any payload size and any positive chunk size: the loop sends exactly the payload in ceil(payload / chunk) writes. The last write is the remainder when that is nonzero, otherwise a whole chunk |
| `TransferLoop.CompleteWritesWholeChunks` | client.c:169-181 | When every write is complete, call i starts at i × chunk and sends all it asks for, and every call but the last asks for a whole chunk |
| `TransferLoop.FullPayloadIn4096Writes` | client.c:169-181 | When every write is complete, the 2 MiB payload goes out in exactly 4096 writes, each asking for and sending 512 bytes, and `total_sent` ends at 2097152 |
| `TransferLoop.SmallPayloadInOneWrite` | client.c:169-181 | When every write is complete, a payload smaller than a chunk goes out in a single write of exactly its size |
| `TransferLoop.ProgressEvery256KiB` | client.c:184-188 | When every write is complete, a progress line is printed exactly at the positive multiples of 256 KiB up to 2 MiB |
| `TransferLoop.ShortWritesStillSendAll` | client.c:175-181 | When every write sends at least one byte and no more than asked, short writes lose nothing: the loop ends with the whole payload sent, after at least ceil(payload / chunk) writes, since none can send more than a chunk |
| `HciParams.U16Le` | client.c:32 | `htobs` puts a 16-bit value into two bytes, low byte first. Reading them back little-endian gives the value |
| `HciParams.U16FromLe` | client.c:32 | Reading two bytes as a little-endian 16-bit value is the inverse of `U16Le` |
| `HciParams.PackU16LeAt` | client.c:22-30 | In a packed run of 16-bit fields, field i sits at bytes 2i and 2i+1, little-endian |
| `HciParams.UnpackPackU16Le` | client.c:22-30 | Splitting a packed run of 16-bit fields gives back every field |
| `HciParams.PackUnpackU16Le` | client.c:22-30 | Packing the fields read from an even-length block rebuilds the block |
| `HciParams.EncodeConnUpdate` | client.c:22-38 | The connection-update parameter block is 14 bytes whatever its field values |
| `HciParams.DecodeConnUpdate` | client.c:22-30 | A block decodes as connection-update parameters if and only if it is 14 bytes long |
| `HciParams.ConnUpdateFieldOrder` | client.c:22-30 | The seven little-endian 16-bit fields lie in this order: handle, interval_min, interval_max, latency, supervision_timeout, min_ce_length, max_ce_length |
| `HciParams.ConnUpdateRoundTrip` | client.c:22-38 | Decoding an encoded connection-update block gives back every field |
| `HciParams.ConnUpdateDecodeThenEncode` | client.c:22-38 | A block that decodes re-encodes to itself. Together with the round trip, the encoding is a bijection onto 14-byte blocks |
| `HciParams.ConnUpdateFor` | client.c:32-38 | The parameters `send_conn_update` asks for carry the caller's handle, one fixed connection interval (interval_min equal to interval_max) and no connection-event length hint (both CE lengths 0) |
| `HciParams.SendConnUpdateBlock` | client.c:21-41 | The block `send_conn_update` hands to `hci_send_cmd` is 14 bytes. Its first two bytes decode to the handle, and the whole block decodes to the handle with the fixed parameters |
| `HciParams.SendConnUpdateBytes` | client.c:32-38 | Byte by byte, the block is the little-endian handle followed by `0C 00 0C 00 00 00 F4 01 00 00 00 00` |
| `HciParams.ConnUpdateTimings` | client.c:33-36 | At 1.25 ms per tick both intervals are 15 ms, and interval_min ≤ interval_max. Latency is 0. At 10 ms per tick the supervision timeout is 5 s |
| `HciParams.ConnUpdateForWithinCoreLimits` | client.c:33-38 | For every handle up to 0x0EFF, the fixed parameters obey section 7.8.18: every field is in range, and the timeout in ms is greater than (1 + latency) × interval_max in ms × 2 |
| `HciParams.EncodeSetPhyAsWritten` | client.c:69-74 | The `le_set_phy_cp` struct as declared is 5 bytes: the little-endian handle, then tx_phys, rx_phys and phy_opts, one byte each |
| `HciParams.DecodeSetPhyAsWritten` | client.c:69-74 | A block decodes as the declared struct if and only if it is 5 bytes long |
| `HciParams.SetPhyAsWrittenRoundTrip` | client.c:69-74 | Decoding the declared struct's encoding gives back every field |
| `HciParams.SetPhyAsWrittenDecodeThenEncode` | client.c:69-74 | A 5-byte block that decodes re-encodes to itself |
| `HciParams.Set2mPhyBlockAsWritten` | client.c:76-90 | The block `set_2m_phy` hands to `hci_send_req` is 5 bytes and decodes to the handle, tx_phys = 0x02, rx_phys = 0x02 and phy_opts = 0x00 |
| `HciParams.EncodeLeSetPhy` | client.c:69-74 | The block that section 7.8.49 defines is 7 bytes: handle, All_PHYs, TX_PHYs, RX_PHYs, then PHY_Options as a 16-bit little-endian field |
| `HciParams.DecodeLeSetPhy` | client.c:69-74 | A block decodes as section 7.8.49 parameters if and only if it is 7 bytes long |
| `HciParams.LeSetPhyRoundTrip` | client.c:69-74 | Decoding a 7.8.49 block's encoding gives back every field |
| `HciParams.LeSetPhyDecodeThenEncode` | client.c:69-74 | A 7-byte block that decodes re-encodes to itself |
| `HciParams.Set2mPhyBlock` | client.c:76-90 | The corrected LE Set PHY block for a handle is 7 bytes. It decodes to the handle, All_PHYs = 0, LE 2M only for TX and RX, and no PHY options |
| `HciParams.Set2mPhyAsWrittenNotLeSetPhy` | client.c:69-90 | For every handle, the block as written cannot be read as section 7.8.49 parameters. Its third byte, 0x02, falls where 7.8.49 puts All_PHYs, which the corrected block sets to 0 |

## Left out

- Socket creation, the L2CAP address setup, `getsockopt`/`setsockopt` of the 247-byte MTUs, and `connect` with its error exits (client.c:119-155). These are operating-system socket calls with no logic beyond their error returns.
- `sleep(2)` and `sleep(10)`: fixed delays with nothing to state.
- `get_conn_handle` (client.c:46-64). It is a `HCIGETCONNINFO` `ioctl` into the kernel, and `main` never calls it.
- `hci_get_route`, `hci_open_dev`, `hci_send_cmd` and `hci_send_req`. These BlueZ library and controller calls are not part of this model. Only the parameter bytes handed to them are modelled. So are not modelled: the commands' return values, the 1000 ms wait of `hci_send_req`, and the "Requested 2M PHY" / "Failed to set PHY" messages.
- `str2ba`/`ba2str` address parsing and printing: a library not part of this model.
- `gettimeofday` and the floating-point elapsed-time and kB/s computation: wall-clock time and floating point.
- `printf`/`perror` text. A progress line is recorded as the `total_sent` value it reports.
- The `memset(buf, 'A', ...)` payload fill: the bytes sent do not affect the loop's arithmetic.
- TransferLoop.Transfer: does not model the 64-bit widths of `size_t`/`ssize_t`. An oracle result larger than the request, which POSIX `write` never returns, is added to `total_sent` as the C code does. The bounds lemmas assume it does not happen (`HonorsCount`).

## Findings

| source | as written | input that shows it | evidently intended | confidence | as-written member | corrected member |
|---|---|---|---|---|---|---|
| client.c:69-74 | `le_set_phy_cp` is handle, tx_phys, rx_phys and a 1-byte phy_opts: a 5-byte block with no All_PHYs field | any handle, e.g. 0x0040: the block sent is `40 00 02 02 00`, two bytes short of the 7 that section 7.8.49 requires, and 0x02 lands in All_PHYs | the 7-byte LE Set PHY block of section 7.8.49: handle, All_PHYs, TX_PHYs, RX_PHYs, 2-byte PHY_Options, here `40 00 00 02 02 00 00` | medium, not executed | `HciParams.Set2mPhyAsWrittenNotLeSetPhy` | `HciParams.Set2mPhyBlock` |
