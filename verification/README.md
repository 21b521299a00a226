# vaprs packet path: a verified model

This project models the packet path of the vaprs APRS relay and proves what it promises, for every
input, every run or every relay chain.

| file | subject |
|---|---|
| `Text.dfy`, `Packet.dfy` | strings (split, join, trim, upper case, decimal bytes) and the packet accessors |
| `Digipeater.dfy` | parsing a path, the New-N decision, printing the packet again |
| `RelayEdit.dfy`, `RelayCut.dfy`, `RelayChains.dfy`, `RelayEcho.dfy` | one relay as the next station reads it; what it reads of a header with a `:`; chains of independent stations; hearing one's packet again |
| `Clock.dfy`, `RateLimiter.dfy`, `Viscous.dfy`, `Dedupe.dfy`, `History.dfy` | token bucket, viscous-delay queue, duplicate window, heard stations |
| `Crc.dfy`, `FlexErrors.dfy`, `Kiss.dfy` | the three checksums with their full tables; what the FlexNet one detects; the KISS encoder and streaming decoder |
| `Ax25.dfy`, `FrameText.dfy`, `FrameHeader.dfy` | binary AX.25 frames to TNC2 text, and what a digipeater reads from it, for canonical and for arbitrary addresses |
| `Igate.dfy` | third-party unwrapping, the two gating directions, and why they do not loop |
| `Erlang.dfy`, `Dashboard.dfy`, `Router.dfy` | rolling statistics, the dashboard stream, the fan-out router |
| `Calendar.dfy` | day numbers to dates |
| `Witnesses.dfy` | inputs at which a promise fails |

Code that computes is a function; code that updates state or loops is a class or a method proved equal to a
function on values, and the properties are lemmas about those functions. Time is an explicit argument:
a natural number for clocks, a real number of seconds for the token bucket. Checksum words are
bit-vectors. Each table entry is tied to the bit-by-bit shift register.

Where a promise fails for some inputs, the code is kept as it is, the exact condition is proved for all inputs, and
`Witnesses.dfy` gives cases outside it:

- A relayed packet reads back as intended exactly when the station call has no `,` or `:` and does not end in `*`, and no `:`
  of the received header is printed again (`RelayIsTheIntendedEdit`). Packets made from text never have one, frames off
  the air can; a `:` only in the replaced entry is harmless. The duplicate key survives exactly when neither the call nor
  what is printed again has a `:` (`RelayKeepsKey`). Otherwise the next station reads the path up to its first `:`
  (`PathAfterRelay`), which can even hold more hops than before (`HopBudgetCanGrow`, from the bytes of a frame); so
  `ChainFromPacket` asks the condition of the first relay. Every later relay meets it.
- The mark count is cast to a byte, so the marks stay within `max_hops_done + 1` exactly for paths with fewer
  than 256 marks, when no `:` is printed; `HopLimit` gives the condition for all packets.
- `max_hops_req` is described as the largest N of a WIDEn-N request, but only the digits in the name are
  compared; `RequestLimitIff` says when it bounds the remaining count.
- A KISS frame round-trips exactly when its command byte is neither FEND nor FESC and every byte past position
  2000 travels escaped (`RoundTripIff`). The decoder's buffer has no bound of 2000 bytes: `ReachableIff` gives
  the buffers that occur.
- After arbitrary input the first KISS frame is already exact unless the decoder stopped inside an escape
  with a non-empty buffer (`FirstFrameIff`). One frame resynchronises the decoder in every case but that of a
  bare FESC command met in such a state (`ResynchronisesIff`).
- An RF frame made by a gate whose call has no `:`, heard again inside headers without `:`, is gated back exactly when the
  headers are at most three, its source field keeps a `:` and nothing forbids source or destination (`GatedBackIff`).
  This happens (`GatingLoopIsReal`); a packet whose `>` comes before its first `:` is never gated back (`NoGatingLoop`).
- A gated line keeps the duplicate key exactly when only white space lies behind the first line of the payload and the
  destination is on the first line; a header with two `>` loses the q construct (`GatedLineReadsBack`).
- The header of a converted frame ends at its first `:` exactly when no callsign byte carries one (`HeaderColonIff`). The
  digipeater reads from it what the address fields say exactly when the callsigns keep clear of its separators
  (`HeaderReadsBackIff`).
- FlexNet detects every single wrong byte, and of the errors inside two adjacent bytes all but seven differences
  (`FlexMissesPairIff`).
- The limiter's tokens stay in range exactly for a non-negative burst and rate (`TokensStayInRangeIff`), and a spaced
  caller always passes exactly when the burst admits one token (`SpacedCallersPassIff`).
- From the reading of its cursor on, a dashboard client sees every packet exactly when at most 200 arrive between polls
  (`StreamIsCompleteIff`); with the ring it is sent first, exactly when also nothing arrives between that ring and the
  cursor (`SessionIsContiguousIff`).
- A consumer of the router has everything that arrived exactly when its own channel had room at every try
  (`NothingMissingIff`).

Where comments and code differ the model follows the code: the duplicate key drops all trailing white space, not
only blanks (src/digipeater/dedupe.rs:47); every blank in a callsign field is dropped, not only trailing ones
(src/ax25.rs:81-86); every carriage return in a payload is dropped, not only a trailing one (src/ax25.rs:224-226).

## Model

| member | source | states |
|---|---|---|
| Digipeater.ReassembleTnc2 | src/digipeater/mod.rs:122-131 | the push loop prints source, destination, fields and payload in TNC2 form |
| Digipeater.ProcessDigipeat | src/digipeater/mod.rs:147-262 | the loops over the path compute the relay decision and the printed packet of `Outcome` |
| Digipeater.RewriteHop | src/digipeater/mod.rs:182-261 | the printed path after one hop is the print of the edited path, or the reason to drop |
| Digipeater.HopFields | src/digipeater/mod.rs:197-241 | what replaces the target: a direct match before the New-N keywords |
| Digipeater.SeekOwnMark | src/digipeater/mod.rs:163-168 | finds the station's own mark, in any letter case, exactly when there is one |
| Digipeater.CountMarks | src/digipeater/mod.rs:170-171 | the number of marks, as a byte |
| Digipeater.RequestedDigits | src/digipeater/mod.rs:266-274 | the digits at the end of a name are the number it requests when they fit a byte, else it requests 0 |
| Digipeater.RequestedN | src/digipeater/mod.rs:266-274 | a name followed by a number requests that number |
| Text.ParsePrintU8 | src/digipeater/mod.rs:93-93 | the decimal form of a byte reads back as the byte |
| Text.ParsedNumber | src/digipeater/mod.rs:93-93 | a number is read after an optional `+`, from digits alone, and only up to 255 |
| Text.UpperAscii | src/digipeater/mod.rs:134-139 | upper case on ASCII text: small letters become capitals, nothing else changes |
| Text.TrimEndDrops | src/digipeater/dedupe.rs:47-47 | blanks, tabs and line ends at the end go |
| Text.TrimEndKeeps | src/digipeater/dedupe.rs:47-47 | a visible character at the end stays, and all before it |
| Text.SplitJoin | src/digipeater/mod.rs:110-112 | joined fields without separators in them split again into the same fields |
| Packets.NewPacketParts | src/packet.rs:25-50 | header, `:` and payload put together come apart the same way |
| Packets.CallsOf | src/packet.rs:52-59 | source and destination of a text that starts with them, whatever follows |
| Packets.CallsOfBareText | src/packet.rs:52-59 | the calls of a text without separators behind the destination, or without destination |
| Packets.NoHeader | src/packet.rs:25-50 | text without `:` gives no header, and a payload without its first character |
| Packets.SameKeyIff | src/digipeater/dedupe.rs:44-50 | two packets share a key exactly when source call, destination call and payload up to trailing white space agree |
| RelayEdit.PrintThenParse | src/digipeater/mod.rs:82-105 | a printed path entry reads back as the entry |
| RelayEdit.EntryForms | src/digipeater/mod.rs:82-105 | the number of an entry stands behind its last `-`, and is 0 without one |
| RelayEdit.ParseHeader | src/digipeater/mod.rs:108-131 | a printed header reads back as source, destination and path |
| RelayEdit.ReadsBackIff | src/digipeater/mod.rs:108-131 | a printed header reads back as its parts exactly when they keep clear of each other's separators |
| RelayEdit.RelayIsTheIntendedEdit | src/digipeater/mod.rs:147-262 | any relayed packet reads back with the old source, destination and payload and the edited path, exactly when the station call is clean and no `:` of the received header is printed again |
| RelayEdit.ColonFreeHeader | src/packet.rs:25-50 | a packet whose header has no `:`, as text always gives, meets that condition |
| RelayEdit.RelaysIff | src/digipeater/mod.rs:147-261 | when a packet is relayed: APRS, no own mark, mark count within the limit, first unmarked entry answered |
| RelayEdit.OutcomeByCase | src/digipeater/mod.rs:147-261 | the outcome for every packet, with the reason of each drop, in the order of the tests |
| RelayEdit.ExcessiveRequestIsDropped | src/digipeater/mod.rs:225-231 | a first unmarked keyword entry that asks for more hops than max_hops_req is dropped as ExceedsMaxHops |
| RelayEdit.NewPathIs | src/digipeater/mod.rs:184-250 | the new path entry by entry: the first unmarked entry becomes the marked call, with name-(n-1) behind it for n of 2 or more |
| RelayEdit.RelayKeepsCalls | src/packet.rs:52-59 | every relay of every packet keeps source and destination call |
| RelayEdit.RelayKeepsKey | src/digipeater/mod.rs:184-258 | the duplicate key survives exactly when neither the call nor what is printed again has a `:` |
| RelayCut.PathAfterRelay | src/digipeater/mod.rs:107-131 | the path the next station reads for any received header: empty behind a `:` in source or destination, else the new path up to its first `:` |
| RelayChains.RelayRewritesPath | src/digipeater/mod.rs:147-262 | the path the next station reads is one path rewrite, exactly when no received `:` is printed again |
| RelayChains.RewriteLosesWeight | src/digipeater/mod.rs:197-250 | each relay lowers the hop weight of the path |
| RelayChains.ChainsAreBounded | src/digipeater/mod.rs:147-262 | no chain of relays by any stations is longer than the weight of the first path |
| RelayChains.RewriteAddsOneMark | src/digipeater/mod.rs:187-250 | a relay adds its own mark in place and keeps all others in order |
| RelayChains.RewriteKeepsPrefix | src/digipeater/mod.rs:176-250 | marks that form a prefix of the path still do |
| RelayChains.HopLimit | src/digipeater/mod.rs:170-174 | for every packet, when the marks after a relay are within max_hops_done + 1; without a printed `:` exactly below 256 marks before it |
| RelayChains.RequestLimitIff | src/digipeater/mod.rs:225-231 | when max_hops_req bounds the count of relayed New-N hops |
| RelayChains.MarkStaysInChain | src/digipeater/mod.rs:184-250 | a mark found or left by a station is in every later copy |
| RelayChains.RelayedOnceOnly | src/digipeater/mod.rs:162-168 | once a station has relayed, every later copy gets AlreadyDigipeated from it |
| RelayChains.StationsAreDistinct | src/digipeater/mod.rs:162-168 | no two relays in a chain are by the same call in any letter case |
| RelayChains.ChainKeepsKey | src/digipeater/dedupe.rs:44-50 | all copies in a chain share one duplicate key |
| RelayChains.ChainFromPacket | src/digipeater/mod.rs:147-262 | budget, one relay per station and key for a chain that starts with any packet, also one off the air, whose first relay prints no received `:` |
| RelayEcho.CopiesAreDuplicates | src/digipeater/dedupe.rs:62-87 | another copy from the same chain within the store time of a New is a Duplicate |
| RelayEcho.CopiesCancelThePending | src/digipeater/viscous.rs:57-63 | hearing any copy of the chain leaves no entry with the key of any copy pending |
| RelayEcho.HeardCopySilencesTheQueue | src/digipeater/viscous.rs:57-80 | over whole runs, an entry with the key of any copy goes out after the hearing only as often as it is added again |
| RateLimiting.RateLimiter.constructor | src/digipeater/mod.rs:289-296 | a full bucket with the per-second rate |
| RateLimiting.RateLimiter.TryConsume | src/digipeater/mod.rs:299-307 | refill, then take one token if there is one |
| RateLimiting.RateLimiter.RefillAt | src/digipeater/mod.rs:309-314 | the refill, capped at the burst |
| RateLimiting.TokensStayInRangeIff | src/digipeater/mod.rs:284-315 | tokens stay in [0, burst] over every run exactly for non-negative burst and rate |
| RateLimiting.Conservation | src/digipeater/mod.rs:299-314 | grants and remaining tokens come from the first refill and the time since |
| RateLimiting.WindowBound | src/digipeater/mod.rs:284-315 | grants in any window of any run are at most burst + rate * length |
| RateLimiting.RefillSplits | src/digipeater/mod.rs:309-314 | splitting a refill at an intermediate time changes nothing |
| RateLimiting.DeniedAttemptsDoNotMatter | src/digipeater/mod.rs:299-307 | leaving out denied attempts changes no answer |
| RateLimiting.SpacedCallersPassIff | src/digipeater/mod.rs:284-315 | a caller at least 1/rate apart is never denied exactly when the burst is at least 1 |
| Viscous.ViscousQueue.Add | src/digipeater/viscous.rs:42-49 | the entry is appended with its time and delay |
| Viscous.ViscousQueue.CancelIfHeard | src/digipeater/viscous.rs:57-63 | the entries with the heard key go, and their number is returned |
| Viscous.ViscousQueue.DrainExpired | src/digipeater/viscous.rs:66-80 | the swap-remove loop leaves and returns what `DrainFrom` says, and that is one step of the run |
| Viscous.DrainParts | src/digipeater/viscous.rs:66-80 | the drain parts the queue into due and not due, losing and doubling nothing |
| Viscous.CancelParts | src/digipeater/viscous.rs:57-63 | a hearing parts the queue into kept and cancelled entries |
| Viscous.RunIsSafe | src/digipeater/viscous.rs:33-80 | over every run each added entry is exactly one of pending, cancelled, transmitted, and each transmitted one was due |
| Viscous.NothingIsEarly | src/digipeater/viscous.rs:66-80 | over every run nothing is transmitted before its delay has passed since it was added |
| Viscous.NothingIsOverdue | src/digipeater/viscous.rs:66-80 | over every run, after a drain nothing is pending whose delay has passed |
| Viscous.DrainLeavesNothingDue | src/digipeater/viscous.rs:66-80 | after a drain nothing overdue is pending |
| Viscous.HeardIsNotTransmitted | src/digipeater/viscous.rs:57-80 | what was pending when its key was heard is never transmitted, in any continuation |
| Dedupe.DupeChecker.Check | src/digipeater/dedupe.rs:62-87 | the answer is the one the unbounded log calls for |
| Dedupe.DupeChecker.Cleanup | src/digipeater/dedupe.rs:90-93 | only live entries stay, and agreement with the log is kept |
| Dedupe.CheckerRefinesLog | src/digipeater/dedupe.rs:62-93 | with cleanups anywhere the checker answers as the unbounded log |
| Dedupe.IdealIsJudged | src/digipeater/dedupe.rs:62-87 | every run yields a log in which each answer follows from its past |
| Dedupe.NewIff | src/digipeater/dedupe.rs:62-87 | New exactly when no New for the key lies within the store time |
| Dedupe.NewsAreApart | src/digipeater/dedupe.rs:62-87 | two News of a key are at least the store time apart |
| Dedupe.DuplicatesCount | src/digipeater/dedupe.rs:66-71 | the duplicates after a New count 2, 3, 4 and on |
| Dedupe.FirstIsNew | src/digipeater/dedupe.rs:79-86 | the first observation of a key is New |
| Stations.HistoryDb.Heard | src/history.rs:39-60 | the record of the upper-cased call is updated or created |
| Stations.HeardWrites | src/history.rs:39-60 | what a hearing writes: time, interface, one more hearing, a position when there is one, and nothing about others |
| Stations.HistoryDb.Cleanup | src/history.rs:79-83 | stale records go, fresh ones stay |
| Stations.WasHeardIff | src/history.rs:39-83 | heard exactly when some hearing in the whole history is fresh, wherever cleanups fall |
| Crc.Crc16Table | src/crc.rs:4-39 | all 256 entries are eight shift steps with polynomial 0xA001 |
| Crc.CcittTable | src/crc.rs:41-76 | all 256 entries are eight shift steps with polynomial 0x8408 |
| Crc.FlexTable | src/crc.rs:78-113 | all 256 entries are those of 0x8408 xored with 0x0F87 |
| Crc.Crc16 | src/crc.rs:117-124 | the table loop equals the bit-by-bit shift register from 0 |
| Crc.CheckCrc16 | src/crc.rs:128-130 | true exactly when the register ends at 0 |
| Crc.CrcCcitt | src/crc.rs:133-140 | the table loop equals the bit-by-bit shift register from any initial value |
| Crc.CrcFlex | src/crc.rs:144-151 | the loop equals the FlexNet recurrence over shift steps |
| Crc.FlexWalk | src/crc.rs:144-151 | FlexNet starts from all ones and goes on byte by byte |
| Crc.FlexByteByTable | src/crc.rs:144-151 | each byte goes through the table, indexed by the high byte of the register |
| Crc.ResidueIsZero | src/crc.rs:126-130 | a message followed by its checksum, low byte first, leaves 0 |
| Crc.FlexResidue | src/crc.rs:142-151 | a message followed by its FlexNet checksum leaves 0x7070 |
| Crc.BurstsAreDetected | src/crc.rs:115-140 | every burst of at most 16 bits at any bit position changes the checksum |
| Crc.PairErrorsAreDetected | src/crc.rs:115-140 | buffers that differ only inside two adjacent bytes have different checksums |
| Crc.CorruptionFailsTheCheck | src/crc.rs:126-130 | a buffer that passes the check fails it after such an error |
| FlexErrors.FlexDetectsOneByte | src/crc.rs:142-151 | any wrong byte, at any place of any message, changes the FlexNet checksum |
| FlexErrors.FlexMissesPairIff | src/crc.rs:142-151 | the errors inside two adjacent bytes that FlexNet misses: seven differences, four of them only in front of a further byte |
| Kiss.KissEscapeByte | src/kiss.rs:44-56 | FEND and FESC are escaped, other bytes are not |
| Kiss.EscapesAre | src/kiss.rs:44-56 | the escapes in numbers: 0xC0 becomes 0xDB 0xDC, 0xDB becomes 0xDB 0xDD |
| Kiss.WireShape | src/kiss.rs:61-106 | FEND, the command byte, and no FEND up to the closing one |
| Kiss.XorDetectsOneByte | src/kiss.rs:90-102 | one wrong byte changes the XOR checksum |
| Kiss.KissEncode | src/kiss.rs:61-106 | FEND, command, escaped data and check bytes of the variant, FEND |
| Kiss.AppendChecksum | src/kiss.rs:73-102 | the escaped check bytes of each variant |
| Kiss.KissDecoder.Emit | src/kiss.rs:137-147 | a frame from a non-empty buffer, which is emptied |
| Kiss.KissDecoder.Feed | src/kiss.rs:150-194 | feeding a chunk runs the state machine over it |
| Kiss.KissDecoder.FeedByte | src/kiss.rs:154-190 | one byte in each of the three states |
| Kiss.BadEscapeIsDropped | src/kiss.rs:179-189 | behind 0xDB every byte but 0xDC and 0xDD is dropped |
| Kiss.ChunksDoNotMatter | src/kiss.rs:149-194 | feeding a chunk in two parts gives the same frames and state, for every split and state |
| Kiss.CollectEscaped | src/kiss.rs:162-189 | an escaped body is collected as it was, or lost as a whole |
| Kiss.RoundTripIff | src/kiss.rs:44-194 | one frame round-trips through a fresh decoder exactly when it fits |
| Kiss.PlainFrameLimit | src/kiss.rs:173-178 | a frame without FEND and FESC gets through exactly up to 2000 bytes |
| Kiss.StreamRoundTrip | src/kiss.rs:44-194 | any list of fitting frames of any variants comes out exactly, in order |
| Kiss.ReceivedChecks | src/kiss.rs:73-102 | residues of the received data: 0 for SMACK, 0x7070 for FlexNet, XOR 0 for BPQ |
| Kiss.ResynchronisesIff | src/kiss.rs:154-190 | from any state any one encoded frame leaves the decoder waiting with an empty buffer, but for a bare FESC command met inside an escape with bytes in the buffer |
| Kiss.SecondFrameIff | src/kiss.rs:154-190 | the next fitting frame decodes exactly in the same cases, and behind the kept bytes in the other |
| Kiss.FirstFrameIff | src/kiss.rs:154-190 | the first frame is exact unless the decoder stopped inside an escape with a non-empty buffer |
| Kiss.BufferLimit | src/kiss.rs:173-188 | bytes past the limit in a reachable buffer are ones that arrived escaped |
| Kiss.ReachableIff | src/kiss.rs:154-190 | the decoder states that input can lead to: any buffer whose bytes past the limit are FEND or FESC |
| Kiss.OverlongIff | src/kiss.rs:173-188 | when an escaped body takes the buffer past the limit |
| Kiss.BufferIsUnbounded | src/kiss.rs:182-188 | FENDs alone fill the buffer to any length |
| Ax25.EncodeAx25Address | src/ax25.rs:21-69 | the seven bytes of a callsign, or the error of its text |
| Ax25.EncodingErrors | src/ax25.rs:21-51 | the error of each bad callsign text, in the order of the tests |
| Ax25.CallByteMeaning | src/ax25.rs:56-64 | a callsign character stands in the upper seven bits, blanks fill the field |
| Ax25.CheckCall | src/ax25.rs:35-49 | the length error in bytes before the error for the first bad character |
| Ax25.NoCallErrorIff | src/ax25.rs:35-49 | neither error exactly for 1 to 6 capital letters and digits |
| Ax25.DecodeAx25Address | src/ax25.rs:77-106 | callsign text, ssid and H-bit mark of seven bytes, or the error for an empty callsign |
| Ax25.Ax25ToTnc2 | src/ax25.rs:134-238 | the conversion `Converted`, for arbitrary bytes |
| Ax25.ViaLoop | src/ax25.rs:157-192 | the via loop reads what `Vias` reads, within bounds, and terminates |
| Ax25.FinishLoop | src/ax25.rs:187-237 | control, PID and payload text after the addresses |
| Ax25.ConvertsIff | src/ax25.rs:134-192 | which byte strings convert, and that the address part is 14 + 7n bytes |
| Ax25.ConversionErrors | src/ax25.rs:134-192 | the error of every frame that does not convert, told from its bytes |
| Ax25.FlagMeaning | src/ax25.rs:96-104 | the top bit marks a used via, the lowest bit the last field |
| Ax25.PlainPayload | src/ax25.rs:220-229 | without CR and LF the payload text is the bytes, code by code |
| Ax25.PayloadEndsAtLineFeed | src/ax25.rs:220-229 | a line feed ends the text |
| Ax25.PayloadSkipsReturn | src/ax25.rs:224-226 | a carriage return leaves no trace |
| Ax25.PayloadIsOneLine | src/ax25.rs:214-229 | the payload text has no CR or LF |
| FrameText.FieldDecodes | src/ax25.rs:77-106 | a canonical address field decodes to its text |
| FrameText.EncodeThenDecode | src/ax25.rs:21-106 | callsign and ssid survive, the ssid exactly when the flags leave its bits alone |
| FrameText.TextEncodes | src/ax25.rs:21-69 | the text of a canonical address encodes to the address |
| FrameText.FrameConverts | src/ax25.rs:134-238 | every well-formed frame converts to the expected header, lengths, payload and flags |
| FrameText.PlainFrameConverts | src/ax25.rs:134-238 | a UI frame without CR and LF becomes its header, a `:` and one character for each payload byte |
| FrameText.HeaderReadsBack | src/digipeater/mod.rs:82-119 | the header parses to every callsign, ssid and H-bit of the frame |
| FrameText.HeaderColonIff | src/ax25.rs:77-215 | the header holds a `:` of its own exactly when a callsign byte carries one |
| FrameHeader.HeaderIs | src/ax25.rs:134-238 | the header of every frame that converts is the print of its address fields |
| FrameHeader.HeaderReadsBackIff | src/digipeater/mod.rs:82-119 | for every frame that converts, when the header parses to the callsigns, ssids and H-bits of its fields |
| FrameText.OverTheAir | src/interface/serial.rs:50-99 | a frame sent as plain KISS reaches the digipeater with its addresses and payload |
| Igate.GatedIff | src/igate.rs:109-152 | what is gated: at most three third-party headers around an acceptable packet, and with which line |
| Igate.GateByCase | src/igate.rs:109-152 | what becomes of every packet heard on RF, with the reason of each drop and all prefixes written out |
| Igate.GateToRfIff | src/igate.rs:167-239 | exactly when a packet goes out on RF, with all prefixes written out, and the frame it becomes |
| Igate.GateToRfOverHistory | src/igate.rs:218-229 | the same over a whole history of hearings and cleanups |
| Igate.AddresseeIs | src/igate.rs:218-223 | the addressee of a message is the text between its first two `:` without the blanks around it |
| Igate.ViasOfText | src/igate.rs:86-101 | the vias of a printed header are its fields behind the destination |
| Igate.GateFollowsUnwrapping | src/igate.rs:121-128 | bounded unwrapping follows unbounded unwrapping |
| Igate.GatedLineIsOneLine | src/igate.rs:148-151 | a gated line is a single line exactly when the gate call is |
| Igate.RfFrameIsOneLine | src/igate.rs:231-238 | a frame gated to RF is a single line exactly when the gate call is |
| Igate.UnwrapsToInner | src/igate.rs:121-128 | nested third-party headers unwrap to the inner packet or exceed the depth |
| Igate.GatedBackIff | src/igate.rs:113-239 | when a frame gated to RF is gated back, for all headers and wrappers |
| Igate.NoGatingLoop | src/igate.rs:113-239 | a packet whose `>` precedes its first `:` is never gated back |
| Igate.GatedLineReadsBack | src/igate.rs:121-151 | any gated line read back: header, payload, vias, calls and key against the packet inside all third-party headers |
| Igate.NoReturnToRf | src/igate.rs:141-239 | the line of a packet whose source was heard on RF is never sent back to RF |
| Erlang.ChannelStats.RecordRx | src/erlang.rs:69-72 | one packet and its bytes join the current minute |
| Erlang.ChannelStats.RecordTx | src/erlang.rs:75-78 | the same for transmitted packets |
| Erlang.ChannelStats.RecordDrop | src/erlang.rs:81-83 | one drop joins the current minute |
| Erlang.ChannelStats.RotateWindow | src/erlang.rs:95-122 | samples are the last 60 completed minutes, the windows the sums of the last 1, 10 and 60 |
| Erlang.WindowsNest | src/erlang.rs:105-117 | a longer window never shows less than a shorter one |
| Erlang.EverythingIsCounted | src/erlang.rs:69-122 | current minute and completed minutes add up to everything recorded |
| Erlang.TotalsAreTheTally | src/erlang.rs:69-83 | a minute's statistics are the numbers of packets received and sent, their bytes, and the drops |
| Dashboard.DashboardState.PushPacket | src/web/mod.rs:104-111 | the ring is the newest 200 of everything pushed, numbered from 1 |
| Dashboard.RingIsContiguous | src/web/mod.rs:104-111 | ring numbers are contiguous and end at the packet count |
| Dashboard.SseClient.InitialState | src/web/server.rs:325-332 | a client is first sent the ring |
| Dashboard.SseClient.constructor | src/web/server.rs:334-337 | the cursor starts at the packet count, read after that |
| Dashboard.SseClient.Poll | src/web/server.rs:357-371 | a poll returns the pushes after the cursor, or the newest 200 of them |
| Dashboard.StreamIsInOrder | src/web/server.rs:333-371 | a client's stream has no repeats and is in order, each entry under its own number |
| Dashboard.StreamIsComplete | src/web/server.rs:333-371 | with at most 200 pushes between polls the stream is start+1, start+2 and on |
| Dashboard.StreamIsCompleteIff | src/web/server.rs:333-371 | the stream is complete exactly when no gap exceeds 200 |
| Dashboard.SessionIsInOrder | src/web/server.rs:325-371 | initial ring and polls together are in order without repeats |
| Dashboard.SessionIsContiguousIff | src/web/server.rs:325-371 | they are contiguous exactly when nothing arrives between ring and cursor and no gap exceeds 200 |
| Routing.Router.Dispatch | src/router.rs:61-76 | each channel is tried on its own, whatever the others answer |
| Routing.RoundIsDispatch | src/router.rs:61-76 | a round of tries without interruption does what Dispatch does and returns to the source |
| Routing.EveryoneIsOffered | src/router.rs:60-76 | in every interleaving the loop offers each arrival to each consumer once and in order; only the packet in hand may be to come |
| Routing.NothingElseIsLost | src/router.rs:62-75 | received plus queued is exactly what was offered while the consumer's own channel was open with room, in order of the offers |
| Routing.SelectIsSubsequence | src/router.rs:62-75 | the accepted packets are a subsequence of the offers, short by exactly the refusals |
| Routing.FanOut | src/router.rs:57-79 | received plus queued is the router's own arrivals without those that found this consumer's channel full or closed |
| Routing.NothingMissingIff | src/router.rs:57-79 | between packets a consumer has every arrival exactly when its channel had room at every try |
| Routing.SourceInOrder | src/router.rs:60-60 | the router receives what was sent, in order; the rest waits in the source channel |
| Routing.ConsumersAreIsolated | src/router.rs:61-76 | router and consumer end as if the other consumers had done nothing, whatever their capacities, receives and closes |
| Calendar.DateCounts | src/logging.rs:137-150 | every day number gives a valid date, and counting back gives the number |
| Calendar.CountsDate | src/logging.rs:137-150 | every valid date since 1970 comes back from its day count |
| Calendar.CalendarIsGregorian | src/logging.rs:137-150 | day 0 is 1970-01-01 and each day is followed by its calendar successor |
| Witnesses.StarredCallIsMisread | src/digipeater/mod.rs:82-105 | a station call ending in `*` is not read back |
| Witnesses.ColonCallLosesKey | src/digipeater/dedupe.rs:44-50 | a station call with `:` changes the duplicate key |
| Witnesses.HopBudgetCanGrow | src/digipeater/mod.rs:107-131 | a frame with a via `A-7:B` is relayed, and the path that is read has weight 7 where the frame had 2 |
| Witnesses.HopLimitCanFail | src/digipeater/mod.rs:170-174 | a path with 256 marks is relayed by a station that allows none |
| Witnesses.RequestLimitCanFail | src/digipeater/mod.rs:225-231 | WIDE2-7 is relayed at a limit of 4 |
| Witnesses.RoundTripCanFail | src/kiss.rs:61-75 | a frame with command byte FEND comes out without it |
| Witnesses.FirstFrameCanFail | src/kiss.rs:154-190 | a decoder stopped inside an escape glues the next frame to its buffer |
| Witnesses.ResynchronisingCanFail | src/kiss.rs:154-190 | a bare FESC command met inside an escape keeps the bytes in the buffer |
| Witnesses.FlexCanMiss | src/crc.rs:142-151 | FlexNet takes 0x91 0x85 for two zeros |
| Witnesses.HeaderColonCanFail | src/ax25.rs:77-106 | a frame whose source callsign is `:` |
| Witnesses.HeaderCanMislead | src/digipeater/mod.rs:82-105 | a via `A-7:B` without ssid is not read as its field says |
| Witnesses.GatingLoopIsReal | src/igate.rs:167-239 | the line `X::Q:>D:` goes to RF and its echo is gated back |
| Witnesses.GatedLineCanBreak | src/igate.rs:148-151 | a gate call with a line feed makes two lines |
| Witnesses.BucketCanFail | src/digipeater/mod.rs:284-315 | a negative rate takes tokens below zero; half a token admits no one |
| Witnesses.StreamCanLose | src/web/server.rs:357-371 | 201 packets between polls lose one |
| Witnesses.SessionCanSkip | src/web/server.rs:325-337 | a packet between the initial ring and the cursor is missing |
| Witnesses.ConsumerCanMiss | src/router.rs:62-75 | a consumer with room for one packet misses the second of two |

## Left out

- Sockets, serial ports, asynchronous tasks, HTTP, configuration files, logging setup and the command line: no state worth a model.
- Packet filters (src/digipeater/filter.rs), D-PRS, positions, telemetry and beacons: they would add easy members or floating-point text.
- Characters outside code points 0 to 255 keep their case in `Text.Upper`; lengths of packet text count characters, not UTF-8 bytes.
- Packet.new followed by payload() on a text without ':' whose first character takes several bytes: the slicing failure is not modelled.
- RateLimiting.WindowBound: tokens are exact reals, so rounding of floating-point tokens is not modelled.
- Dedupe.DupeChecker.Check: the seen count is unbounded, not a 32-bit word.
- Erlang.ChannelStats.RecordRx: counters are unbounded, not 64-bit words.
- Stations.HistoryDb.Heard: what a cleanup does to the heard count and position of a station heard again later is not stated.
- Dashboard.SessionIsContiguousIff: the periodic state events, which send the ring again every five seconds, are not part of the session.
- Viscous.ViscousQueue.DrainExpired: the order of the returned packets is that of the loop; no order is promised.
- Routing.Router.Dispatch: receives and closes between two tries of one round are in the step model, not in the method.
- Routing.FanOut: packets left in the queue of a consumer that closed count as queued, although nobody will receive them.
