# Starlink trace synthesis and eBPF link emulation, modelled in Dafny

This project models the part of the repository that turns a measured
Starlink round-trip capture into delay and loss traces, and the two eBPF
programs plus the loader script that replay those traces on a Mininet link:

- `traces/make_trace_file.py`
  - `process_data` extracts six per-round lists from the capture (`rounds.dfy`).
  - `convert_to_ns` scales to nanoseconds, and `write_data` writes `packet_id,value` lines with `:.0f` (`arrivals.dfy`).
  - `process_loss_trace` re-reads those lines and simulates each packet's arrival under a fixed send cadence, carrying the last known delay forward over missing samples. It then orders the packets by arrival time and writes a loss log and the final delay trace (`arrivals.dfy`).
  - `transform_log` keeps the `lost` column of the loss log and drops its first `1` (`loss_log.dfy`).
- `ebpf-emu-in-mn/h1/edt_delay_packet.c`: a TC program that stamps each matching frame's departure time with `now + delay_map_1[packet_index]` (`edt_delay.dfy`).
- `ebpf-emu-in-mn/h2/xdp_drop_packet.c`: an XDP program that drops a matching frame when `loss_map_2[packet_index]` is nonzero (`xdp_drop.dfy`).
- Both programs share one frame layout, modelled once (`frames.dfy`): Ethernet header, IPv4 header (section 3.1 of RFC 791), and TCP or UDP ports (section 3.1 of RFC 793, RFC 768). They also share the byte-swapped 16-bit loads.
- `ebpf-emu-in-mn/update_map_value.py` (`map_update.dfy`):
  - packs integers little-endian;
  - builds `bpftool map update` commands;
  - finds a map id in the `bpftool map show` listing;
  - writes line `k` of a trace file into key `k`.
- `text.dfy` models the Python string operations the scripts rely on: `str(n)`, `split(sep)`, `strip()`, `split()`, `sep.join`, and `k in s`. `wrappers.dfy` holds `Option` and `Result`.

Modelling choices:

- Stateful code is modelled as methods:
  - each loop of the Python scripts is a method with invariants (`ProcessData`, `WriteData`, `SimulateArrivals`, `TransformLog`, `GetMapId`, `UpdateBpfMapFromFile`);
  - each eBPF program is a class whose field `packetIndex` is the program's `static packet_index`, whose map is an `array`, and whose handler method updates both.
- Each method is proved equal to a specification function, and the properties are proved about that function.
- Floats are reals. Python's `:.0f` rounds half to even.
- Kernel integer types are explicit ranges, with wrap-around written out (`__u32` index increments, the `__u64` timestamp sum).
- The two loaders' external effects are parameters:
  - the `bpftool map show` listing is an `Option` of lines, `None` when bpftool fails;
  - whether a shell command succeeds is a function `succeeds`.

Three facts about the code are worth stating because they are easy to misread:

- `transform_log` drops the first `1` wherever it stands, not only in first place: `0,1,0,1` becomes `0,0,1` (`TraceLossLog.FirstLossDropped`).
- Carry-forward can make arrivals tie. With delays 50, 0, 0, 30 sent every 10 ns, the packets arrive at 50, 60, 70 and 60, so packets 1 and 3 tie (`TraceArrivals.CarryForwardTie`). `sort_values` may put tied packets in either order. The ordering example therefore uses delays 50, 0, 0, 5, whose arrival order is unique.
- The loss log that `transform_log` reads starts with the header `packet_id,lost`, which splits into two fields. The word `lost` is therefore the first line of the final loss trace (`TraceLossLog.FinalLossTrace`).

## Model

| member | source | states |
|---|---|---|
| TraceRounds.ProcessData | traces/make_trace_file.py:53-74 | The loop returns the six lists built round by round (`Extract`), or raises at the first delivered round without a delay block |
| TraceRounds.ExtractFails | traces/make_trace_file.py:55-57 | Extraction raises exactly when some delivered round (`lost == "false"`) lacks `delay`, and it reports the first such round |
| TraceRounds.ErrorStops | traces/make_trace_file.py:55-57 | Once a prefix of the rounds raises, the later rounds do not change the outcome |
| TraceRounds.RoundListsAligned | traces/make_trace_file.py:56-65 | `rtt` and `loss_round` have one entry per round; `loss_round[i]` is 1 iff round `i` is lost; `rtt[i]` is the scaled RTT when delivered, 0 otherwise |
| TraceRounds.DirectionalLists | traces/make_trace_file.py:58-73 | `receive` holds one entry per delivered or downlink-lost round, in round order: the scaled receive delay when delivered, 0 when lost. `send` holds the same for delivered and uplink-lost rounds. `loss_down` and `loss_up` hold one entry per round with a known tag, 1 exactly on the rounds lost in their direction |
| TraceRounds.LossCounts | traces/make_trace_file.py:62-73 | `loss_down` sums to the number of downlink-lost rounds and `loss_up` to the number of uplink-lost rounds |
| TraceRounds.UnknownTagRound | traces/make_trace_file.py:63-73 | A round with an unknown tag appends only to `rtt` (0) and `loss_round` (1) |
| TraceRounds.DeliveredThenLostDown | traces/make_trace_file.py:55-73 | A delivered round with RTT 1000000 followed by a downlink loss gives rtt [1,0] and loss_round [0,1]; `send` is one entry short |
| TraceArrivals.ConvertToNs | traces/make_trace_file.py:114-117 | One output per input; each output divided by 1000000 is the input in the same place, so the conversion loses nothing |
| TraceArrivals.ConvertRecoversCapture | traces/make_trace_file.py:57 | Converting the extracted RTT list gives back the capture's raw RTT for each delivered round and 0 for each lost one |
| TraceArrivals.RoundHalfEvenUnique | traces/make_trace_file.py:126 | The `:.0f` rounding is the unique integer within 0.5 of the value that is even on a tie |
| TraceArrivals.RoundHalfEvenNegate | traces/make_trace_file.py:126 | Rounding commutes with negation |
| TraceArrivals.FormatFixed0RoundTrip | traces/make_trace_file.py:126 | The printed value holds no comma and parses back as the rounded value, `-0` included |
| TraceArrivals.TraceLineRoundTrip | traces/make_trace_file.py:126 | A written line `id,value` parses back as the id and the rounded value |
| TraceArrivals.WriteData | traces/make_trace_file.py:120-126 | Line `i` is `f"{i},{data[i]:.0f}"`, and re-reading the lines gives rows `(i, round(data[i]))` for every `i` |
| TraceArrivals.ReadBackTrace | traces/make_trace_file.py:125-126 | Reading the written file back gives ids 0, 1, 2, … and the rounded values |
| TraceArrivals.Effective | traces/make_trace_file.py:150-157 | A carried-forward delay is positive or is the send interval, so it is positive whenever the interval is |
| TraceArrivals.EffectiveIsLastKnown | traces/make_trace_file.py:151-157 | The effective delay of packet `i` is the latest positive delay at or before `i`, or the send interval when there is none |
| TraceArrivals.SimulateArrivals | traces/make_trace_file.py:146-159 | The loop yields, for every packet, the carried-forward delay and the arrival time, which is send time plus that delay |
| TraceArrivals.InsertKeepsOrder | traces/make_trace_file.py:164 | Inserting a packet into an arrival-ordered sequence keeps it ordered |
| TraceArrivals.SortByArrival | traces/make_trace_file.py:164 | The result is a permutation of the packets in nondecreasing arrival order |
| TraceArrivals.ArrivalSortUnique | traces/make_trace_file.py:164 | When no two arrivals coincide, there is exactly one arrival ordering |
| TraceArrivals.LossLog | traces/make_trace_file.py:165-169 | The loss log is the header `packet_id,lost` and then one line per packet in arrival order; each line splits on `,` into two fields that read back as the packet's id and its loss flag |
| TraceArrivals.DelayLines | traces/make_trace_file.py:170 | One line per packet in arrival order, each reading back as that packet's effective delay |
| TraceArrivals.ProcessLossTrace | traces/make_trace_file.py:142-170 | The frame is an arrival ordering of the simulated packets; the loss log is a header plus `id,lost` lines and the delay trace is the effective delays, both in that order |
| TraceArrivals.CountPermutation | traces/make_trace_file.py:164-165 | Reordering does not change how many packets have a property |
| TraceArrivals.CountZeroPackets | traces/make_trace_file.py:161-165 | The simulated frame has as many zero-delay packets as the input has zero delays |
| TraceArrivals.OrderedTraceContents | traces/make_trace_file.py:161-167 | The ordered frame has one entry per input row, each the packet of some row, and the same number of lost (delay 0) packets as the input |
| TraceArrivals.DelayTracePositive | traces/make_trace_file.py:155-157 | Every delay in the final delay trace is positive |
| TraceArrivals.CarryForwardExample | traces/make_trace_file.py:150-159 | Delays 50, 0, 0, 5 every 10 ns give effective delays 50, 50, 50, 5 and arrivals 50, 60, 70, 35 |
| TraceArrivals.CarryForwardTie | traces/make_trace_file.py:150-159 | Delays 50, 0, 0, 30 every 10 ns give effective delays 50, 50, 50, 30 and arrivals 50, 60, 70, 60 |
| TraceArrivals.ExampleArrivalOrder | traces/make_trace_file.py:164 | Any arrival ordering of the 50, 0, 0, 5 example lists packets 3, 0, 1, 2 |
| TraceLossLog.TransformLog | traces/make_trace_file.py:180-187 | The output is the second field of every two-field stripped line, in order, minus the first `1` |
| TraceLossLog.RemoveFirstLength | traces/make_trace_file.py:184-186 | Removing the first `1` shortens the list by one when a `1` occurs, and leaves it unchanged otherwise |
| TraceLossLog.RemoveFirstAt | traces/make_trace_file.py:184-186 | Exactly the position of the first `1` is removed |
| TraceLossLog.HeaderField | traces/make_trace_file.py:169 | The header `packet_id,lost` yields the field `lost` |
| TraceLossLog.LossLineField | traces/make_trace_file.py:169 | A data line `id,flag` yields its flag |
| TraceLossLog.LossLogFields | traces/make_trace_file.py:169 | The second fields of the loss log are `lost`, then the packets' flags in arrival order |
| TraceLossLog.FlagsHoldOne | traces/make_trace_file.py:165-167 | A `1` flag occurs iff some packet has delay 0 |
| TraceLossLog.FinalLossTrace | traces/make_trace_file.py:180-187 | Normalizing the loss log gives `lost`, then the ordered flags without their first `1` |
| TraceLossLog.FinalLossTraceLength | traces/make_trace_file.py:164-167 | The flags part of the final loss trace has one entry per packet, minus one exactly when some delay was 0 |
| TraceLossLog.FirstLossDropped | traces/make_trace_file.py:184-186 | `1,0,1,0` becomes `0,1,0`, and `0,1,0,1` becomes `0,0,1` |
| Text.NatRoundTrip | traces/make_trace_file.py:126 | Formatting a natural number in decimal and parsing it gives the number back |
| Text.IntRoundTrip | traces/make_trace_file.py:145 | `str(i)` parses back as `i` for every integer, including negatives |
| Text.SplitJoin | traces/make_trace_file.py:182 | Splitting a join on a separator that no piece contains recovers the pieces |
| Text.StripSpec | traces/make_trace_file.py:182 | `strip()` keeps a contiguous slice that begins and ends with non-whitespace; everything outside it is whitespace |
| Text.ContainsOccurs | ebpf-emu-in-mn/update_map_value.py:34 | `keyword in line` holds iff the keyword occurs at some position of the line |
| Text.JoinNested | ebpf-emu-in-mn/update_map_value.py:20-24 | Splicing a joined list into a join with the same separator is the join of the flattened list |
| Frames.ByteSwapInvolution | ebpf-emu-in-mn/h1/edt_delay_packet.c:10-11 | `bpf_ntohs` and `bpf_htons` undo each other |
| Frames.LoadNet16BigEndian | ebpf-emu-in-mn/h1/edt_delay_packet.c:58-59 | A host-order load followed by a byte swap reads the field in network order (high byte first) |
| Frames.IsIPv4Bytes | ebpf-emu-in-mn/h1/edt_delay_packet.c:40 | The EtherType test holds iff bytes 12 and 13 are 0x08 and 0x00 |
| Frames.PortMatchesIs2112 | ebpf-emu-in-mn/h1/edt_delay_packet.c:66-67 | With both filter ports 2112, the filter asks for 2112 as source or destination port |
| EdtDelay.EdtPortsSpec | ebpf-emu-in-mn/h1/edt_delay_packet.c:35-59 | Ports are read iff the frame has at least 38 bytes, is IPv4, and carries TCP or UDP. They are read at bytes 34-37 whatever the IHL, and the filter passes exactly the selected frames |
| EdtDelay.NextIndexCycles | ebpf-emu-in-mn/h1/edt_delay_packet.c:82-85 | Increment-then-reset is a step modulo TRACE_LEN from any index in the trace |
| EdtDelay.Step | ebpf-emu-in-mn/h1/edt_delay_packet.c:28-96 | A selected frame whose key `index % TRACE_LEN` is in the map gets `now` plus that delay, wrapped to 64 bits, and the incremented-and-reset index; every other frame leaves index and `tstamp` unchanged |
| EdtDelay.StepSpec | ebpf-emu-in-mn/h1/edt_delay_packet.c:28-96 | A selected frame whose delay entry exists gets `tstamp = now + delay` (mod 2^64) and advances the index; every other frame leaves both unchanged |
| EdtDelay.FullMapNeverMisses | ebpf-emu-in-mn/h1/edt_delay_packet.c:18-23 | With TRACE_LEN entries every key the program forms is present |
| EdtDelay.DelayStamper.EdtDelayPacket | ebpf-emu-in-mn/h1/edt_delay_packet.c:27-97 | Always returns TC_ACT_OK; the new index and timestamp are those of `Step` on the old ones |
| EdtDelay.RunIndex | ebpf-emu-in-mn/h1/edt_delay_packet.c:82-85 | After a run, the index has moved on by the number of selected frames, modulo TRACE_LEN |
| EdtDelay.RunReplaysTrace | ebpf-emu-in-mn/h1/edt_delay_packet.c:68-85 | With a full map, packet `k` of a run, when selected with `c` selected packets before it, leaves at `now + delays[(start + c) % TRACE_LEN]`; other packets keep their tstamp |
| XdpDrop.XdpPortsSpec | ebpf-emu-in-mn/h2/xdp_drop_packet.c:31-61 | Ports are read iff the frame has at least 34 bytes, is IPv4, carries TCP or UDP, and holds 4 bytes at `14 + 4*ihl`. They are read there in network order, and the filter passes exactly the selected frames |
| XdpDrop.StepSpec | ebpf-emu-in-mn/h2/xdp_drop_packet.c:27-89 | A selected frame whose entry exists is dropped iff the entry is nonzero and advances the index; every other frame passes with the index unchanged |
| XdpDrop.Step | ebpf-emu-in-mn/h2/xdp_drop_packet.c:27-89 | A selected frame whose key `index % TRACE_LEN` is in the map is dropped iff its entry is nonzero and moves the index on; every other frame passes with the index unchanged; only selected frames are dropped |
| XdpDrop.PacketDropper.XdpDropPacket | ebpf-emu-in-mn/h2/xdp_drop_packet.c:27-89 | The action and the new index are those of `Step` on the old index |
| XdpDrop.RunIndex | ebpf-emu-in-mn/h2/xdp_drop_packet.c:79-84 | After a run, the index has moved on by the number of selected frames, modulo TRACE_LEN |
| XdpDrop.RunReplaysTrace | ebpf-emu-in-mn/h2/xdp_drop_packet.c:65-88 | With a full map, the selected frame with `c` selected frames before it is dropped iff `losses[(start + c) % TRACE_LEN]` is nonzero; all other frames pass |
| MapUpdate.IntToLittleEndianBytes | ebpf-emu-in-mn/update_map_value.py:10-12 | Packing succeeds iff 0 <= value < 2^32, giving 4 bytes that decode to the value |
| MapUpdate.PackedWeights | ebpf-emu-in-mn/update_map_value.py:12 | The packed bytes weigh 1, 256, 65536 and 16777216 |
| MapUpdate.PackOnto | ebpf-emu-in-mn/update_map_value.py:12 | Every 4 bytes are the packing of exactly one value |
| MapUpdate.DecodeEncode | ebpf-emu-in-mn/update_map_value.py:12 | Little-endian encoding into `n` bytes, then decoding, gives back any value below 256^n |
| MapUpdate.EncodeDecode | ebpf-emu-in-mn/update_map_value.py:12 | Decoding bytes, then encoding into as many bytes, gives back the bytes |
| MapUpdate.GenerateBpftoolUpdateCommand | ebpf-emu-in-mn/update_map_value.py:14-25 | Generation succeeds iff key and value both fit in 32 unsigned bits; otherwise it raises `struct.error` and nothing else |
| MapUpdate.CommandSplits | ebpf-emu-in-mn/update_map_value.py:20-24 | The command is the space-join of 16 space-free tokens: the fixed words, the id, and the 4+4 decimal bytes |
| MapUpdate.CommandRoundTrip | ebpf-emu-in-mn/update_map_value.py:14-25 | Generation succeeds iff key and value fit in 32 unsigned bits; the command then reads back as (map id, key, value) |
| MapUpdate.ParsePyIntRoundTrip | ebpf-emu-in-mn/update_map_value.py:49 | `int(str(i)) == i` for every integer |
| MapUpdate.GetMapId | ebpf-emu-in-mn/update_map_value.py:27-43 | The scan returns `FindMapId`: nothing when bpftool failed or no line holds the keyword; otherwise the id on the first matching line, or the IndexError or ValueError reading it raises |
| MapUpdate.FindMapIdAt | ebpf-emu-in-mn/update_map_value.py:33-39 | The result is decided by the first line that holds the keyword |
| MapUpdate.FindMapIdNone | ebpf-emu-in-mn/update_map_value.py:30-43 | No id is found iff bpftool failed or no line holds the keyword |
| MapUpdate.MapShowLineId | ebpf-emu-in-mn/update_map_value.py:35-39 | A listing line `<id>: ...` yields the id |
| MapUpdate.FindsShownMap | ebpf-emu-in-mn/update_map_value.py:33-39 | When the first line holding the keyword is map `id`'s listing line, `id` is found |
| MapUpdate.Issued | ebpf-emu-in-mn/update_map_value.py:46-54 | The run issues at most one command per line, and command `k` is the one built for line `k` |
| MapUpdate.BuildCommand | ebpf-emu-in-mn/update_map_value.py:49-50 | The command for line `key` is built from `int(line.strip())`, or nothing when parsing or packing raises |
| MapUpdate.UpdateBpfMapFromFile | ebpf-emu-in-mn/update_map_value.py:45-54 | The commands run are exactly `Issued`: one per line in order, until a line fails to build or a command fails |
| MapUpdate.IssuedInOrder | ebpf-emu-in-mn/update_map_value.py:48-54 | Every command before the last succeeded; a run shorter than the file stopped on an unbuildable line or a failed command |
| MapUpdate.IssuedAll | ebpf-emu-in-mn/update_map_value.py:48-51 | When every line builds and every command succeeds, one command runs per line |
| MapUpdate.LineCommandReadsBack | ebpf-emu-in-mn/update_map_value.py:49-50 | A command built from a line writes that line's integer (which fits in 32 unsigned bits) under its key |
| MapUpdate.IssuedWritesLines | ebpf-emu-in-mn/update_map_value.py:48-51 | Command `k` of a run writes the integer on line `k` into key `k` of the map |
| MapUpdate.UpdateMapByKeyword | ebpf-emu-in-mn/update_map_value.py:70-74 | If `get_map_id` raises, the script stops with that error; if no map is found, nothing runs; if map `id` is found, the run of `update_bpf_map_from_file` for `id` runs |

## Left out

- File and JSON I/O, pandas, numpy, `argparse`, `logging`, and `print` are not modelled. Each function takes and returns its data: lines without terminators, rows, and lists. `read_json_file`, `save_processed_data`, `read_data`, `process_delay_trace`, and `main` of the trace script are glue around the modelled functions.
- `process_loss_trace` is modelled on the rows pandas reads from the written file. The CSV reader is modelled only for the integer lines `write_data` produces; pandas' float and NaN handling of other input is not modelled.
- `pandas.sort_values` is not stable. The model states its result as any permutation in nondecreasing arrival order, and proves the order unique when arrivals are distinct.
- `float` is modelled as exact reals. Binary rounding in `/ 1000000`, `* 1_000_000`, and `:.0f` is not modelled.
- The kernel side of the eBPF programs is left out: the BPF verifier, concurrent invocations on several CPUs, `bpf_printk`, and how TC and XDP act on the returned verdicts and timestamps. The clock `bpf_ktime_get_ns()` is the parameter `now`.
- The map length is left open; a missing entry is modelled as a failed lookup. With the declared `TRACE_LEN` entries that branch is never taken.
- The little-endian host is assumed for 16-bit loads and for the IHL bit-field.
- `subprocess.run` is modelled by its outcome: the bpftool listing as an optional list of lines, and command success as the function `succeeds`. Shell parsing of the command is not modelled.
- `splitlines()` is not modelled; the listing arrives already split into lines.
- `int()` is modelled for ASCII digits with single underscores, an optional sign, and surrounding whitespace in the set `IsSpace` covers. Other Unicode digits and whitespace are not.
- `get_map_id` catches only `CalledProcessError`. An `IndexError` or `ValueError` while reading the id propagates out of the script; the model returns it as an error.
- `int_to_little_endian_bytes` ignores its `byte_length` argument, as the source does.
- `update_bpf_map_from_file` builds the key from `enumerate`, which the model mirrors.
- `edt_delay_packet` declares an unused local `key` at line 33, which has no effect.
- `edt_delay_packet` reads the ports at the fixed offset 34, as if the IPv4 header had no options. `xdp_drop_packet` uses `ihl * 4`. Both are modelled as written.
