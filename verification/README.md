# Verified model of the multicast router's address, checksum and timer code

The project models three parts of the PIM dense-mode daemon and proves what they promise:

- the Internet checksum of `inet.c` (`Bytes`, `OnesComplement`, `Checksum`);
- the address code of `inet.c`: which hosts, masks and subnets are credible, how addresses and
  networks are printed and read, and how host names are cut (`Bits`, `BitVectors`, `Address`,
  `Numerals`, `CStrings`, `Quads`, `NetNames`, `Domains`);
- the timer queue of `callout.c`, on which every protocol timer of the daemon runs
  (`TimerLists`, `TimerRuns`, `Callouts`).

Lines of `inet.c` are cited in `inet.c.bak`; the two files differ in comments only and have the
same line numbers. The comments of `callout.c` and of most other files are in a legacy Chinese
encoding, their code is plain ASCII. `dafny verify dfyconfig.toml` verifies everything.

## How the model is built

**Words.** A 32-bit word is a number below 2^32. The operators `&`, `|`, `~` are defined digit by
digit in base two, so that facts about masks are proved by halving and stated with powers of two;
`BitVectors` proves that they are the operators of Dafny's `bv32`. Unsigned subtraction wraps
around. The byte order of the processor is a parameter, `Endian`, of everything that looks at
memory; `ntohl`, the 16-bit loads of the checksum and the byte pointers of `inet_fmt` and
`inet_parse` are defined by it.

**Checksum.** `InetCksum` is the loop over memory, with a signed 32-bit accumulator, so that the
absence of overflow is a proof obligation. It may be called on every buffer whose words the
accumulator can hold, which `AccumulatorBoundIsTight` relates to the length. The laws speak of
`Canonical`, the representative of a sum modulo 65535 that keeps the two zeros of one's-complement
arithmetic apart. They are the properties of sections 1, 2 and 4.1 of RFC 1071 and of equation 3
in section 3 of RFC 1624.

**Text.** C strings live in caller-owned character arrays and end at the first NUL. `%u` prints
decimal digits; reading with `%u` skips white space, accepts a sign, computes in 64 bits
(saturating) and stores 32 of them, as the C library of the daemon's platform does. `ReadNetName`
and `ReadSubnet` are readers for the texts of `netname`, written to show what these texts
determine.

The lemmas named `...Meaning`, with `StringsEndInZero`, `ByteOrders`, `DigitCodes` and `SpaceCodes`,
fix what these functions are in character codes, places and literals.

**Class macros.** `IN_CLASSA` and its relatives come from `<netinet/in.h>`, `MAXHOSTNAMELEN` (256)
from `<sys/param.h>`; neither header is part of the repository.

**Timers.** `Callouts` is the linked list in the heap, with the time of each node counted from the
one before it. `TimerLists` says what its operations do to the differences, and `TimerRuns`
relates the list to a clock and a map from timers to due times, over all runs. In a run the
requests of the functions that an ageing calls stand behind that ageing.

## Findings

- The test for host bits at line 94 of `inet_valid_subnet` can never fire
  (`HostBitsTestIsRedundant`).
- Exactly two accepted subnets contain addresses that `inet_valid_host` rejects: 128.0.0.0/1 and
  192.0.0.0/2 (`HostsOfAcceptedBlocks`; `ExceptionalSubnetsAccepted` shows that both are accepted).
- `inet_parse` followed by `inet_fmt` gives back a plain text of four numbers only up to 15
  characters. In a longer accepted text a number has wrapped around: 4294967296.1.2.3 is read as
  0.1.2.3, and every address has such a second text (`WrappedTextIsAccepted`).
- A `netname` text cannot be given to `inet_parse` when all four octets are printed and a mask
  part follows (`ParseOfName`); `10.1.2.3/32` is one (`UnreadableName`).
- Incremental update of a checksum fails for the message of zeros only, where the code answers
  0xffff and the formula 0 (`IncrementalUpdate`, with an input in `IncrementalUpdateToZero`).
- A function that is called by an ageing may clear another timer and that timer's function is
  called all the same. This happens exactly when the time that the timer had left before the
  ageing, as `timer_leftTimer` tells it, is at most the time elapsed (`ClearedByFunction`): all
  expired timers leave the list before the first function is called. `ClearedTimerIsCalled` is an
  input; `handle_sg_timeout` is such a function, as it clears `check_timerid` (`mrt.c:33-37`,
  `mrt.c:99-105`). Once `timer_clearTimer` has run, no later ageing fires the timer
  (`ClearedNeverFires`).

## Model

| member | source | states |
|---|---|---|
| Checksum.InetCksum | inet.c.bak:202-236 | the loop, the odd byte and the two folds return 65535 minus the canonical one's-complement sum; the signed accumulator never overflows |
| Checksum.ChecksumClosedForm | inet.c.bak:229-235 | two folds are enough for every sum below 2^32, so the truncated complement is 65535 minus the canonical sum |
| Checksum.FoldedClosedForm | inet.c.bak:207-235 | the folded sum is congruent to the sum of words modulo 65535, and is 0 exactly when every byte is 0 |
| Checksum.AccumulatorNeverOverflows | inet.c.bak:207-227 | any buffer of at most 65536 bytes, in either byte order, fits the signed accumulator |
| Checksum.AccumulatorBoundIsTight | inet.c.bak:207-227 | the lengths at which every buffer fits are exactly those up to 65536 bytes (65537 on a little-endian processor) |
| Checksum.Concatenation | inet.c.bak:218-234 | the folded sum of a message is one fold of the folded sums of its two parts, the second byte-swapped if it starts at an odd offset |
| Checksum.ByteOrderIndependence | inet.c.bak:218-234 | processors of either byte order compute byte-swapped checksums and so store the same two bytes, for every length |
| Checksum.VerifyAfterStore | inet.c.bak:202-236 | zeroing a word, summing and storing the answer there makes the checksum 0, on processors of both byte orders, for every message that fits the accumulator and every offset, an odd one taking the answer with its bytes exchanged |
| Checksum.StoreChecksum | inet.c.bak:202-236 | a sender's use of the routine (pim.c:109-110): zeroing the field, summing and storing the answer leave the rest of the buffer alone, store the checksum of the zeroed message, and make the receiver's check (pim.c:138) come out 0 in either byte order |
| Checksum.IncrementalUpdate | inet.c.bak:218-235 | after a change of two adjacent bytes, at any offset, the formula of RFC 1624 gives the new checksum unless the new message is all zero, where it gives 0 and the code 0xffff |
| Checksum.IncrementalUpdateToZero | inet.c.bak:218-235 | the word 1 updated to 0 is a message on which the formula and the code disagree |
| Checksum.ChecksumExample | inet.c.bak:202-236 | the numerical example of section 3 of RFC 1071 |
| Checksum.SingleWordDetection | inet.c.bak:218-235 | a change of two adjacent bytes, at any offset, leaves the checksum the same exactly when it is an exchange of 0x0000 and 0xffff and another byte is nonzero |
| Bytes.NetworkOrder | inet.c.bak:117-118 | the bytes of a word in memory are the octets of its ntohl value, which is its own inverse, in either byte order |
| Bytes.ByteOrders | inet.c.bak:117-118 | where the bytes of 16- and 32-bit words are in memory, and what ntohl makes of a word, for each byte order |
| CStrings.StringsEndInZero | inet.c.bak:118 | the string in a buffer is what stands before the first zero character |
| BitVectors.WordOperators | inet.c.bak:49-59 | the digit-wise and, or and complement of the model are those of 32-bit machine words |
| Address.ValidHostMeaning | inet.c.bak:31-42 | a host is credible exactly when its first octet is 1 to 223 |
| Address.ValidMaskMeaning | inet.c.bak:49-59 | the arithmetic test accepts exactly the 33 masks 2^32 - 2^(32-n), and n is the number of one bits |
| Address.ValidSubnetMeaning | inet.c.bak:70-104 | accepted are (0,0) and the CIDR blocks: a nonzero multiple of the block size, first octet 1-126 with n >= 8 or 128-223 |
| Address.HostBitsTestIsRedundant | inet.c.bak:79-97 | the subnet equals its masked value exactly when it has no host bits, so the later test is implied |
| Address.ZeroMaskIsDefault | inet.c.bak:79-83 | an accepted pair has mask 0 exactly when its subnet is 0 |
| Address.BlockIsInterval | inet.c.bak:79-80 | the mask test of a block selects the addresses from the subnet up to the subnet plus the block size |
| Address.AcceptedBlocksNest | inet.c.bak:62-104 | the blocks of any two accepted subnets are nested or disjoint |
| Address.HostsOfAcceptedBlocks | inet.c.bak:31-104 | all addresses of an accepted non-default block are credible hosts, except exactly in 128.0.0.0/1 and 192.0.0.0/2 |
| Address.ExceptionalSubnetsAccepted | inet.c.bak:70-104 | 128.0.0.0/1 and 192.0.0.0/2 are themselves accepted, in either byte order |
| Quads.InetFmt | inet.c.bak:110-120 | the buffer receives the octets of the address in network order, in decimal with dots, and a zero character, which is not in the text; the rest of the buffer stays as it was |
| Quads.DottedQuadMeaning | inet.c.bak:118 | the text of an address is its four bytes as decimal numbers with dots between them, the most significant first |
| Quads.FormatFitsBuffer | inet.c.bak:20-23 | the text of an address has at most 15 characters, so it fits the 19-character buffers |
| Quads.InetParse | inet.c.bak:161-181 | the result is the network-order form of the parsed address, or all ones when too few or too many conversions succeed or a number exceeds 255 |
| Quads.ParseDotted | inet.c.bak:171-180 | one to four octets read as the address with zeros added; a text after four numbers counts as a fifth conversion and is rejected |
| Quads.ParseMeaning | inet.c.bak:161-181 | a text that starts with one to four numbers in any form that %u reads is the address of these numbers, exactly when there are n, all are octets and nothing follows a fourth; otherwise all ones |
| Quads.ParseNothing | inet.c.bak:155-173 | a text that starts with no number is all ones as soon as n is 1, or 0 when it is blank |
| Quads.NumbersOf | inet.c.bak:171 | every text starts with such numbers or with none, so the two laws before this one cover all inputs |
| Quads.NoNumberIsAnError | inet.c.bak:155-173 | an empty or blank text, and one whose first other character is no digit and no sign, gives all ones for every n from 1 on |
| Quads.LeadingBlanks | inet.c.bak:171 | blanks in front of a text make no difference |
| Quads.SignedNumber | inet.c.bak:171-173 | a plus in front of a printed number makes no difference, and a minus in front of 1 to 255 gives all ones |
| Numerals.ScanMeaning | inet.c.bak:171 | one %u reads blanks, a sign and digits; without digits it is the end of input for a blank text and no number for any other |
| Numerals.StoredMeaning | inet.c.bak:171 | the number stored is the digits' value or its negative modulo 2^32, and all ones from 2^64 on |
| Numerals.SpaceCodes | inet.c.bak:171 | the blanks are the codes 9 to 13 and 32 |
| Quads.FormatParseRoundTrip | inet.c.bak:110-181 | parsing the text of any address gives the address back, for every n up to 4 |
| Quads.FormatInjective | inet.c.bak:110-120 | two addresses have the same text only if they are equal |
| Quads.ParseFormatRoundTrip | inet.c.bak:110-181 | an accepted plain text of four numbers is what its address prints as, exactly when it has at most 15 characters |
| Quads.WrappedTextIsAccepted | inet.c.bak:161-181 | every address has a second plain text, with a number above 2^32, that is read as that address |
| NetNames.ForgeMaskMeaning | inet.c.bak:270-283 | the forged mask is the prefix of 8, 16 or 24 bits that the first octet calls for |
| NetNames.DoMask | inet.c.bak:285-313 | the bit scans append nothing, "/" and the number of one bits for a valid mask, or "&0x" and the mask, then a zero character, and leave the rest of the buffer alone |
| NetNames.LowestOne | inet.c.bak:296-308 | all bits above the lowest one bit are one exactly when inet_valid_mask accepts, and then 32 minus its position counts the ones |
| NetNames.NetNamer.Name | inet.c.bak:319-340 | the static buffer holds the name of the network and a zero character behind it |
| NetNames.NameMeaning | inet.c.bak:285-340 | from its characters, a name is the octets in decimal without trailing zeros; then nothing for mask 0 or that of the class, a slash and the prefix length without leading zeros for a prefix, "&0x" and the mask in base 16 for any other |
| NetNames.NameExample | inet.c.bak:285-340 | 10.128.0.0 with the mask 255.128.0.0 is named 10.128/9 |
| Numerals.PrintMeaning | inet.c.bak:118 | numbers are printed with the digits 0 to 9 and a to f, one more digit for each factor of the base |
| Numerals.ValueMeaning | inet.c.bak:171 | one more digit multiplies what digits denote by the base and adds the digit |
| Numerals.DigitCodes | inet.c.bak:118 | the character codes of the digits in each base up to 16 |
| NetNames.NameLength | inet.c.bak:323 | a name has at most 26 characters and no NUL, so it never overruns the buffer |
| NetNames.NameRoundTrip | inet.c.bak:270-340 | an explicit reader recovers from every name the address and the mask, a zero mask being read as the mask of the class |
| NetNames.NamesEqual | inet.c.bak:270-340 | over all pairs, names are equal exactly when the addresses are equal and the masks are equal or are 0 and the forged mask |
| NetNames.SubnetRoundTrip | inet.c.bak:70-104 | the name of an accepted subnet determines subnet and mask, by an explicit reader |
| NetNames.SubnetNamesInjective | inet.c.bak:319-340 | two accepted pairs with the same name are equal |
| NetNames.ParseOfName | inet.c.bak:161-181 | inet_parse reads a name as its address unless fewer than n octets are printed, or four and a mask that is neither 0 nor that of the class |
| NetNames.UnreadableName | inet.c.bak:161-181 | the name of 10.1.2.3 with the mask of a single host is rejected by inet_parse even when one number is enough |
| Domains.DomainTrimmer.constructor | inet.c.bak:245-246 | the latch is set and the domain empty before the first call |
| Domains.DomainTrimmer.Trim | inet.c.bak:241-268 | the first call fixes the domain; the name is cut in place, by a zero character, where the closed form says, and no other character changes |
| Domains.TrimmedMeaning | inet.c.bak:258-267 | a name becomes p exactly when it is p, a dot and the nonempty domain, letter by letter the same or the capital and small form of one letter |
| Domains.CaseMeaning | inet.c.bak:260 | the comparison ignores exactly the difference between A to Z and the letters 32 codes on |
| Domains.CutInAnyCase | inet.c.bak:258-267 | pc.EXAMPLE.com is cut to pc by the domain example.com |
| Domains.DomainMeaning | inet.c.bak:249-256 | the domain is what follows the first dot of the host name, and is empty without a dot or a host name |
| Domains.OneDotMatches | inet.c.bak:259-266 | at most one dot of a name is followed by the domain |
| Domains.TrimEach | inet.c.bak:241-268 | calls of the routine on any number of separate buffers leave each cut by the domain that the first call looked up |
| Domains.FirstCallDecides | inet.c.bak:249-256 | over every sequence of calls, threading the latch as Trim is proved to do, each name is trimmed by the domain that the first call looked up |
| Callouts.CalloutQueue.constructor | callout.c:33-37 | the queue starts empty |
| Callouts.CalloutQueue.SetTimer | callout.c:116-174 | the list is changed as the insertion of the model says; the answer is one more than the last identifier, names no timer of the list before, and names one with the delay left after it; without memory nothing changes and -1 is returned |
| Callouts.CalloutQueue.ClearTimer | callout.c:196-231 | the named timer leaves the list and the next one takes over its time; the identifiers 0 and -1 and unknown ones change nothing |
| Callouts.CalloutQueue.LeftTimer | callout.c:177-193 | the sum along the list is the time that the timer has left, or -1 |
| Callouts.CalloutQueue.NextTimer | callout.c:100-111 | the time of the first timer, 0 if it has passed, -1 if there is none |
| Callouts.CalloutQueue.Age | callout.c:56-94 | the list is split at the elapsed time and the rest aged; then the functions of the expired timers that have one are called once each, in order, and the timers they set and clear are set and cleared in the new list |
| Callouts.CalloutQueue.Run | callout.c:56-231 | any sequence of setting, clearing and ageing calls, with what the functions ask, does to the linked list what the run of list operations does, so the laws of all runs hold for it, and calls the functions of the timers that this run fires |
| Callouts.CallsMeaning | callout.c:86-93 | of several expired timers the functions are called one after the other; a timer without a function calls nothing |
| Callouts.RequestsMeaning | callout.c:86-93 | what the functions ask is carried out one function after the other |
| Callouts.AllOpsMeaning | callout.c:56-231 | the operations of a sequence of calls are those of the single calls, an ageing being followed by what its functions ask |
| TimerLists.InsertRefines | callout.c:150-171 | insertion gives the new timer its delay and leaves the remaining time of every other timer alone |
| TimerLists.RemoveRefines | callout.c:210-231 | removal leaves the remaining time of every other timer alone |
| TimerLists.AgeRefines | callout.c:70-83 | ageing takes the elapsed time from every timer that is left |
| TimerRuns.StepRefines | callout.c:56-231 | every operation keeps the list equal to the pending timers ordered by due time and age, and ageing fires exactly the timers that have become due, in that order |
| TimerRuns.FiringMeaning | callout.c:56-94 | ageing fires exactly the pending timers that are due by then, with their own actions, those due earlier first and of those due together the one set first |
| TimerRuns.NewIdentifier | callout.c:143-174 | the next identifier names no timer yet, and after setting a timer has the delay of that timer left |
| TimerRuns.RepresentedIds | callout.c:143-174 | in every reachable queue the identifiers in the list have been given out, as NewIdentifier asks |
| TimerRuns.EveryRunRefines | callout.c:15-231 | every run from the empty queue represents the same run of a clock and a map of due times |
| TimerRuns.LeftMeaning | callout.c:177-193 | a pending timer has its due time minus the clock left, any other identifier gets -1 |
| TimerRuns.NextMeaning | callout.c:96-111 | the next wake-up is the time until the earliest due time of all pending timers, 0 when that has been reached, and -1 exactly when nothing is pending |
| TimerRuns.TimerLifetime | callout.c:116-193 | after any history, a timer that is set has its delay minus the elapsed time left through every run, until it is cleared or an ageing uses that up, and then is gone; time may be set back |
| TimerRuns.TimerFires | callout.c:56-231 | after any history, a timer that is set fires in a run exactly when an ageing of the run reaches its delay before the timer is cleared; time may be set back |
| TimerRuns.TimerFiresAt | callout.c:56-231 | the operation that fires it is the first ageing that reaches its delay |
| TimerRuns.DueInForwardTime | callout.c:56-94 | while no ageing is negative, the delay is reached exactly when the run has an ageing and all its ageings together reach it |
| TimerRuns.ClearedNeverFires | callout.c:196-231 | after any history, which may end between two functions of an ageing, a timer that is cleared is fired by no ageing that starts later |
| TimerRuns.ClearedWhileAgeing | callout.c:56-94 | a pending timer that is cleared between an ageing and the next one fires exactly when the time it had left before the ageing was used up by it |
| Callouts.ClearedByFunction | callout.c:56-94 | a pending timer that a function of an ageing clears still fires exactly when its time left before was at most the time elapsed, and then its own function is called |
| Callouts.ClearedTimerIsCalled | callout.c:86-93 | two timers expire together, the function of the first clears the second, and both functions are called |
| TimerRuns.NoTimerFiresTwice | callout.c:56-94 | over every run no timer fires twice |

## Left out

- The protocol messages, the multicast routing table, interface discovery, IGMP and kernel calls (`pim.c`, `mrt.c`, `vif.c`, `igmp.c`, `kern.c`, `route.c`): packet building and socket calls around the parts modelled here.
- `inet_fmts` (`inet.c.bak:127-152`): it is compiled out.
- Sharing of the static buffers `s1` to `s4` and `line` between calls: `InetFmt` takes the buffer as an argument, and `NetNamer` owns one.
- Domains.DomainTrimmer.Trim: the overlapping `strcpy` at line 253 is taken as the assignment it is meant to be, and `gethostname` is an argument of the call.
- Alignment of the 16-bit loads in `inet_cksum`, and the width of `u_long` in `domask`: a mask is a 32-bit value.
- Input fields longer than the library's internal buffer for one number, which `sscanf` would split.
- Callouts.CalloutQueue.Age: what the functions of the timers do outside the queue is not modelled; what they ask of it is the argument `effects`, any list of `timer_setTimer` and `timer_clearTimer` calls for each, for which memory is available. They do not age the queue themselves, which only `main.c:133` does. The debug output is not modelled.
- Callouts.CalloutQueue.SetTimer: times and identifiers are unbounded integers, so overflow of a 32-bit `int` does not occur; whether memory is available is an argument.
- The placing, unlinking and splitting of list nodes, and the walk over the expired ones, are methods of their own (`Enqueue`, `Place`, `Link`, `Remove`, `Unlink`, `Postpone`, `Split`, `CutAfter`, `Expire`, `CallExpired`, `Perform`) where the code has them inline.
- Domains.TrimEach and Callouts.CalloutQueue.Run: loops over calls as clients make them; the repository has no such routine.
- `free_all_callouts` and the freeing of nodes: memory is not reclaimed in the model.
