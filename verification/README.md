# machammer, modelled in Dafny

machammer floods a LAN's DHCP server with Discover messages, one per
hardware address from a list. A pool of worker threads does the work. Each
worker:

- broadcasts a Discover for its address;
- waits for an Offer addressed to that address;
- resends the Discover at 3, 9 and 15 seconds, keeping the same transaction
  id (xid) and raising the `secs` field to 3, 6 and then 12;
- gives up at 21 seconds.

`main` keeps at most `limit` workers running. It refills the pool from the
address stack as workers complete.

This project models the three pieces that carry the logic:

- **The frame forge** (`forge.dfy`, with `checksum.dfy` and `headers.dfy`).
  It builds the 342-byte Ethernet II / IPv4 / UDP / DHCP Discover frame,
  including the UDP checksum over the RFC 768 pseudo-header. That checksum
  uses RFC 1071 end-around-carry summation. The IPv4 header checksum is the
  hard-coded constant 0x3996. The model proves that this constant is correct.
- **The offer recogniser** (`parser.dfy`). It checks for an IPv4 packet with
  protocol 17 and a UDP datagram from port 67 to port 68. It then skips the
  magic cookie without checking it and scans the options until the End code.
  It is looking for option 53 (DHCP message type) with the value exactly 2.
  An option whose length runs past the buffer makes the source panic; the
  model reports this as an explicit `Panic` verdict.
- **The worker's retry rule and the pool refill rule** (`worker.dfy`,
  `scheduler.dfy`). Both are pure state machines:
  - the clock, the received frames and the order of completions are inputs;
  - the xid is a parameter;
  - frames that are sent are recorded in the worker's state.

`bytes.dfy` holds the shared byte and big-endian helpers.

Bytes are the subset type `uint8` of `int`. Each packet view of the source
is modelled as the fixed field offsets that it reads and writes:

- IPv4: the protocol is byte 9, and the payload starts at 4·IHL (never
  before byte 20);
- UDP: the ports are bytes 0-3, and the payload starts at byte 8;
- DHCP: the options field starts at byte 236.

The model mirrors the source where the source departs from the standards:

- The UDP checksum is `0xFFFF - sum`. A zero result is not replaced by
  0xFFFF, so a checksum of 0 can be transmitted (`Checksum.UdpChecksumCanBeZero`).
- The option scan reads code 0 (Pad, section 3.1 of RFC 2132) as an ordinary
  code/length/value option (`Parser.PadIsReadAsOption`).
- On a truncated option the recogniser indexes past the end of the buffer
  and panics (lines 61 and 65 of `src/dhcp_parser.rs`). It also panics at
  line 30 when the options field is shorter than the cookie. The model
  reports both as a `Panic` verdict (`Parser.PanicExample`,
  `Parser.ParseSucceedsIff`).
- The magic cookie is never checked (`Parser.CookieIsIgnored`).
- The offer scan runs even on frames addressed to another host. Its panic
  therefore ends the worker however the destination check turns out
  (`Worker.ForeignFrameCanCrash`).
- `main` waits on the completion channel even when it launched no worker.
  It then never returns (`Scheduler.HangsIffNothingLaunched`).

The comments at `src/dhcp_forge.rs:83-86` call the first two pseudo-header
words the "src" address 255.255 and the last two the "dst" address 0.0.
The values summed are 0x0000, 0x0000, 0xFFFF, 0xFFFF. These are source
0.0.0.0 and destination 255.255.255.255, matching the IPv4 header at lines
130-131. The model follows the values.

## Model

| member | source | states |
|---|---|---|
| Checksum.EndAroundCarry | src/dhcp_forge.rs:74-77 | the overflowing add plus its carry never overflows: it is a+b below 65536, otherwise a+b-65535, i.e. the one's-complement reduction of a+b |
| Checksum.FoldCarry | src/dhcp_forge.rs:79-111 | the running sum is 0 exactly when it starts at 0 and every word is 0: an end-around-carry add never turns a non-zero total into 0 |
| Checksum.FoldCarryIsOnesReduce | src/dhcp_forge.rs:79-111 | folding any word sequence with end-around carry from a start value gives the one's-complement reduction of the plain sum |
| Checksum.WordsAt | src/dhcp_forge.rs:99-111 | payload word k is byte 2k as high byte and byte 2k+1 as low byte, or zero for an odd trailing byte |
| Checksum.UdpChecksum | src/dhcp_forge.rs:62-115 | the checksum equals the RFC 1071 checksum of pseudo-header (0.0.0.0, 255.255.255.255, protocol 17, length+8), UDP header (68, 67, length+8, 0) and payload, and is never 0xFFFF |
| Checksum.UdpChecksumMatchesReference | src/dhcp_forge.rs:79-111 | the source's ten header words plus payload words, folded from 0, equal the one's-complement sum of the RFC 768 byte layout, and that sum is never 0 |
| Checksum.UdpChecksumVerifies | src/dhcp_forge.rs:52-60 | with the computed checksum written into the UDP header, the receiver's sum over pseudo-header, header and payload is all ones |
| Checksum.UdpChecksumCanBeZero | src/dhcp_forge.rs:113-114 | no substitution of 0 by 0xFFFF: the payload FF 53 yields a transmitted checksum of 0 |
| Forge.DhcpLayer | src/dhcp_forge.rs:22-50 | 300 bytes: op/htype/hlen/hops 1,1,6,0; xid at 4-7 and secs at 8-9 big-endian; flags and addresses zero; chaddr the MAC then zeros; sname/file zero; options the cookie, 53=[1], 12 (17-byte host name), 55 (13 codes), End, 22 zeros |
| Forge.UdpLayer | src/dhcp_forge.rs:52-60 | ports 68 -> 67, length field equal to the datagram's length, checksum field the UDP checksum of the payload, payload unchanged |
| Forge.IpLayer | src/dhcp_forge.rs:117-134 | version 4, IHL 5, DSCP 4, ECN 0, total length 328, id/flags/fragment 0, TTL 128, protocol 17, checksum 0x3996, 0.0.0.0 -> 255.255.255.255, payload unchanged |
| Forge.Ipv4Header | src/dhcp_forge.rs:119-132 | for any checksum field, the 20 bytes read back through the header accessors as version 4, IHL 5, DSCP 4, ECN 0, total length 328, id/flags/fragment 0, TTL 128, protocol 17, that checksum, 0.0.0.0 -> 255.255.255.255 |
| Forge.Ipv4ChecksumConstantIsCorrect | src/dhcp_forge.rs:117-133 | 0x3996 is the RFC 1071 checksum of that header with a zero checksum field, and the header carrying it sums to all ones |
| Forge.EthLayer | src/dhcp_forge.rs:136-142 | destination ff:ff:ff:ff:ff:ff, source the MAC, EtherType 0x0800, payload unchanged |
| Forge.ForgeDiscover | src/dhcp_forge.rs:11-20 | the 342-byte frame decodes, through the accessors the recogniser uses, to a broadcast Discover from the MAC over UDP 68 -> 67 with the given xid and secs and the Discover options |
| Forge.ForgedUdpChecksumVerifies | src/dhcp_forge.rs:52-60 | the UDP datagram at frame offset 34 passes the receiver's checksum test over the pseudo-header for length 308 |
| Forge.DhcpLayersDifferOnlyInXidSecs | src/dhcp_forge.rs:22-49 | two DHCP messages for one MAC agree outside bytes 4-9 |
| Forge.ForgedFramesDifferOnlyInXidSecsChecksum | src/dhcp_forge.rs:22-58 | two frames for one MAC agree everywhere except the UDP checksum (40-41), the xid (46-49) and secs (50-51) |
| Parser.ParseOptions | src/dhcp_parser.rs:49-70 | every option a successful scan returns has a code other than End (0xFF) and a value shorter than 256 bytes, as its one-byte length field allows |
| Parser.ParseOptionsSound | src/dhcp_parser.rs:49-70 | a successful scan yields valid options (code not 0xFF, length < 256) whose back-to-back encoding is a prefix of the buffer, followed by the end of the buffer or an End code |
| Parser.ScanOptions | src/dhcp_parser.rs:49-70 | the index loop (each option advances by 2 + length; it stops at End; a length past the end panics) computes the same outcome as the recursive scan |
| Parser.ParseEncodingRoundTrip | src/dhcp_parser.rs:54-67 | encoded valid options followed by the end or an End code, whatever comes after it, scan back to exactly those options |
| Parser.ParseSucceedsIff | src/dhcp_parser.rs:54-67 | the scan stays in bounds if and only if the buffer starts with well-formed options followed by the end or an End code |
| Parser.PadIsReadAsOption | src/dhcp_parser.rs:55-67 | a Pad byte is read as a code with the next byte as its length: 00 35 01 02 FF runs out of bounds |
| Parser.HasOfferType | src/dhcp_parser.rs:32-39 | true exactly when some option is code 53 with value [2] |
| Parser.IsDhcpOffer | src/dhcp_parser.rs:13-47 | not an offer unless IPv4 protocol 17, UDP 67 -> 68 and a DHCP fixed part; Offer exactly when the scan after the 4-byte cookie succeeds and finds 53=[2]; Panic exactly when such a reply has an options field shorter than the cookie or a scan that runs past the end |
| Parser.VerdictOfParsedReply | src/dhcp_parser.rs:28-46 | a server reply whose options after the cookie scan without error is an offer exactly when the options include 53=[2], and otherwise is not |
| Parser.ForgedOptionsParse | src/dhcp_parser.rs:49-70 | the forge's options region scans to 53=[1], 12 (host name), 55 (request list), in that order |
| Parser.ForgedFrameIsNotOffer | src/dhcp_parser.rs:23-27 | the forged Discover's IPv4 part is not an offer (ports 68 -> 67) |
| Parser.CookieIsIgnored | src/dhcp_parser.rs:28-30 | overwriting the 4 cookie bytes of any buffer never changes the verdict |
| Parser.ReplyPacketOptions | src/dhcp_parser.rs:21-30 | a hand-built IPv4/UDP 67 -> 68 reply is a server reply whose IPv4 total length and UDP length equal the bytes present, so no payload is cut short, and whose options after the cookie are the given bytes |
| Parser.OfferIffMessageTypeOffer | src/dhcp_parser.rs:28-39 | for a reply with well-formed options, the verdict is never Panic and is Offer exactly when some option is 53=[2] |
| Parser.OfferExample | src/dhcp_parser.rs:32-38 | options 35 01 02 FF give Offer |
| Parser.NotOfferExamples | src/dhcp_parser.rs:32-38 | option 53 with [1], [5] or [2, 0], and code 54 with [2], give NotOffer |
| Parser.PanicExample | src/dhcp_parser.rs:61-65 | option 53 declaring 9 bytes with 1 present panics |
| Worker.ClassifyFrame | src/main.rs:131-137 | Offer exactly when the frame holds an Ethernet header, the destination is the worker's MAC, the EtherType is IPv4 and the payload is an offer; Panic exactly when the frame is under 14 bytes or the payload scan panics, whatever the destination |
| Worker.RetryRule | src/main.rs:154-169 | fails exactly when retry is 3 and 21 s have elapsed; otherwise sends at most one resend, and does so exactly when the wait for resend retry+1 (3, 9, 15 s) has elapsed, keeping the sent frames the Discovers of the schedule |
| Worker.Resend | src/main.rs:158-168 | appends the Discover with the same MAC and xid and the next secs (3, 6, 12) and increments retry by one |
| Worker.Step | src/main.rs:128-170 | succeeds exactly on an offer for its MAC, crashes exactly on a read error or a panicking frame, raises retry only by one on a due resend; on a frame that is not an offer it fails exactly when retry is 3 and 21 s have elapsed, and resends whenever the wait for the next resend has elapsed |
| Worker.Run | src/main.rs:128-170 | the loop keeps MAC, xid and the sent-frames invariant, only appends frames, and stops changing once the worker has stopped |
| Worker.Lifecycle | src/main.rs:119-170 | whatever the polls, the first frame sent is the secs-0 Discover, the frames sent are always the first Discovers of the schedule, and a worker that gave up has sent all four |
| Worker.Start | src/main.rs:119-125 | a running worker with retry 0 that has sent the secs-0 Discover |
| Worker.SentFramesShareXid | src/main.rs:120-168 | a worker sends 1 to 4 frames, frame i being a Discover for its MAC with its one xid and secs 0, 3, 6, 12 |
| Worker.FailureMeansAllResendsSent | src/main.rs:154-156 | a failed worker has sent all four Discovers |
| Worker.OfferTakesPrecedence | src/main.rs:137-139 | an offer for the worker's MAC ends it with success before the retry rule runs, whatever the clock |
| Worker.FailureOnlyAfterWaitOffer | src/main.rs:154-156 | a failure is only declared on a poll at 21 s or later |
| Worker.QuietNetworkFails | src/main.rs:154-169 | with no offer and every poll at 21 s or later, a worker with retry resends done has failed within 4 - retry polls, having sent 4 frames |
| Worker.QuietNetworkKeepsRunning | src/main.rs:154-169 | under the same polls, fewer than 4 - retry of them leave the worker running, so the failure comes exactly on poll 4 - retry |
| Worker.NoResendBeforeFirstWait | src/main.rs:165-169 | polls before 3 s with no offer change nothing |
| Worker.OwnDiscoverIsNotOffer | src/main.rs:131-137 | the worker's own Discover seen on the wire is not taken for an offer |
| Worker.ForeignFrameCanCrash | src/main.rs:131-135 | a frame for another MAC whose options run past the end still crashes the worker |
| Scheduler.NewThread | src/main.rs:88-99 | on a non-empty stack, moves its last address to the pool and changes nothing else; on an empty stack, changes nothing |
| Scheduler.Launched | src/main.rs:49-56 | after the launch loop, the last min(limit, n) addresses run, the pool is within the limit and every target is in stack or pool once |
| Scheduler.LaunchInitial | src/main.rs:49-56 | the loop with its early exit on an empty stack reaches exactly that state |
| Scheduler.Receive | src/main.rs:58-68 | a completion finishes exactly the reporting worker, keeps the other running workers in the pool, pops at most one address off the end of the stack and starts exactly that one, and ends the loop exactly when the stack is empty |
| Scheduler.ReceivePreserves | src/main.rs:58-68 | a completion keeps every target in exactly one of stack, pool and finished, the pool within the limit and full while addresses wait |
| Scheduler.RunPreserves | src/main.rs:58-68 | any sequence of completions keeps that invariant |
| Scheduler.RunCountsCompletions | src/main.rs:58-68 | fewer completions than stacked addresses leave the loop receiving, each having popped one address and finished one worker |
| Scheduler.Run | src/main.rs:58-68 | completions only append to the finished list, at most one per pick, and nothing changes once the loop has stopped |
| Scheduler.JoinAll | src/main.rs:71-75 | joining moves every pooled worker to finished |
| Scheduler.JoinFinishesAll | src/main.rs:71-75 | once the receive loop is over, joining finishes every target exactly once |
| Scheduler.Dispatch | src/main.rs:49-75 | main hangs exactly when there are no targets or the limit is 0; a completed run finishes every target exactly once |
| Scheduler.HangsIffNothingLaunched | src/main.rs:49-58 | main blocks forever exactly when the launch loop leaves the pool empty |
| Scheduler.RunDrains | src/main.rs:58-75 | for distinct addresses, from a receiving state with a running worker, max(1, stack size) completions in any order end the loop and the join finishes every target |
| Scheduler.DispatchCompletes | src/main.rs:49-75 | with distinct addresses, at least one target and a positive limit, as many completions as targets, in any order, complete the run with every target finished once |

## Left out

- Command-line parsing, interface lookup, channel creation and the
  `send_to`/`rx.next()` calls (src/main.rs:29-44, 102-113, 173-180) are I/O.
  Received frames are an input, and sent frames are recorded in the worker's
  state.
- `get_mac_stack` (src/main.rs:182-201) reads a file and fills short
  addresses from `rand::random`. The address stack is an input. The
  underflow of `6 - b.len()` for lines with more than six octets is not
  modelled.
- Threads, the `mpsc` channel and `JoinHandle` are not modelled. Completions
  are a sequence of picks among the running workers. Each join is one step
  that finishes the worker.
- The pool is a sequence with one entry per worker. The source's `HashMap`
  keeps one entry per address, so a duplicate address overwrites a running
  worker's handle. The join loop (src/main.rs:71-75) then does not wait for
  that worker, and `main` can return before it finishes. The model does not
  represent this. `Scheduler.RunDrains` and `Scheduler.DispatchCompletes`
  therefore require distinct addresses (`Scheduler.Distinct`).
- `Instant` and the random xid are inputs: whole elapsed seconds and an xid
  parameter. Whole seconds are exact, because every threshold is a whole
  number of seconds. The source reads the clock once per branch; only the
  read in the branch whose `retry` matches decides anything, so one reading
  per poll is modelled.
- A worker that panics ends its thread before it sends its address on
  the channel. Its pool entry is then never removed and its slot is never
  refilled. If every worker in the pool has crashed while the receive loop
  is still running, `main` waits forever. The scheduler model only has workers that complete; a crash
  corresponds to a completion that never arrives, i.e. a `Pending` outcome
  that never moves on.
- A read timeout or another read error panics. All of these are one
  `ReadError` poll that crashes the worker, whatever its kind and message.
- The pnet packet views are modelled as fixed offsets. The clipping of the
  IPv4 payload by its total-length field and of the UDP payload by its
  length field is not modelled: each payload runs to the end of the buffer.
  The hand-built replies of the recogniser's lemmas carry length fields
  equal to the bytes present (`Parser.ReplyPacketOptions`), so clipping
  would not change them.
- The model assumes that `DhcpPacket::new` (src/dhcp_parser.rs:28) rejects
  a UDP payload shorter than the 236-byte fixed part (`Parser.IsServerReply`).
  If pnet's minimum size counts only the fixed-width fields, a shorter
  payload passes line 28. The options slice at line 30 is then empty and the
  source panics, where the model answers `NotOffer`.
- src/utils.rs only prints, so it is not part of this model.
- Checksum.UdpChecksum: requires payload length + 8 <= 0xFFFF. The source's
  `as u16` truncation and its `length + 8` addition on longer payloads are
  not modelled, because the only caller passes 300 bytes.
- Forge.IpLayer and Forge.EthLayer require the fixed 308- and 328-byte
  payloads of the source's fixed buffers.
