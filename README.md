# jellyfin-nas-suspend, modelled in Dafny

`jellyfin-nas-suspend.py` keeps a NAS asleep while a Jellyfin media server is
idle and wakes it when there is activity. By design, a log-watcher thread
puts an item on the activity queue `JELLYFIN_ACTIVITY` whenever Jellyfin
writes to its logs; in this revision that thread is never started (see
"Left out"), so the model takes what producers put as a parameter. The
main loop waits up to 300 seconds for an item. When an item arrives it calls
`Nas.wake_up`, which broadcasts Wake-on-LAN magic packets until the NAS
answers a UDP ping. When the wait times out it calls `Nas.suspend`, which sends
`b"suspend"` until the NAS stops answering. `Jellyfin.latest_activity` picks
the latest `LastActivityDate` among the server's sessions.

The model has five modules, one file each:

- `WakeOnLan` (wake_on_lan.dfy): the MAC string's separators are stripped
  (`Strip`, `Normalise`). The string is hex-decoded with the semantics of
  CPython 3.7+ `bytes.fromhex` (`FromHex`). The magic packet is
  `b'\xff' * 6 + mac_bytes * 16` (`MagicPacket`).
- `Power` (power.dfy): `wake_up` and `suspend` are methods with loops. The UDP
  probe `ping()` is an oracle `ping: nat -> bool`, where `ping(k)` is the answer
  of the k-th probe of the call, read with the probe's reply check repaired
  (`WrittenPing` is the probe as written). The datagrams sent are returned in order. The
  same file models the loops as the source writes them, for the findings below.
- `Jellyfin` (jellyfin.dfy): `latest_activity` sorts the dates and takes the
  last one. Dates are integers.
- `Arbiter` (arbiter.dfy): the queue is a class holding a sequence. The main
  loop is a method run for a finite list of iterations. `Replay` is the
  reference description of what each `get` returns.
- `Wrappers` (wrappers.dfy): the `Option` type.

Where the code and the intended design differ, the model follows the code:

- A `ValueError` raised by `wake_up` or `suspend` is not caught in `main`, so
  the loop ends. `MainLoop` stops at the first raising call. It does not
  carry on to the next wait.
- Each iteration takes one item from the queue. It does not drain every
  pending item. So a burst of k items gives k consecutive `wake_up` calls.
- The MAC string's length is never checked. Any even number of hex digits is
  accepted, and the packet is `6 + 16 * n` bytes for `n` decoded bytes.
- The retry loops have three defects (see Findings). `WakeUp` and `Suspend`
  model the corrected loops: the counter decrements by one, the check reads
  `max_attempts`, and the call fails only when the probe after the last
  command still reports the wrong state.
- The probe's reply check calls a method `Nas` does not have, so as written
  any reply raises (see Findings). The loops are modelled with the probe
  repaired.

## Model

| member | source | states |
|---|---|---|
| WakeOnLan.Strip | jellyfin-nas-suspend.py:96 | `replace(c, "")` leaves exactly the characters of the input that differ from `c` and is never longer than the input |
| WakeOnLan.Normalise | jellyfin-nas-suspend.py:96 | after both replacements no `:` or `-` is left, and every other character of the MAC string is kept |
| WakeOnLan.FromHex | jellyfin-nas-suspend.py:96 | a successful decode yields one byte per two non-whitespace characters |
| WakeOnLan.FromHexPlain | jellyfin-nas-suspend.py:96 | without whitespace, decoding succeeds iff the string is an even number of hex digits; byte k is the value of digits 2k and 2k+1 |
| WakeOnLan.FromHexRejects | jellyfin-nas-suspend.py:96 | a character that is neither a hex digit nor whitespace, or an odd number of hex digits, makes `bytes.fromhex` raise |
| WakeOnLan.Repeat | jellyfin-nas-suspend.py:97 | `block * n` has `n * len(block)` bytes |
| WakeOnLan.RepeatAt | jellyfin-nas-suspend.py:97 | byte k of `block * n` is byte `k mod len(block)` of the block |
| WakeOnLan.MagicPacket | jellyfin-nas-suspend.py:97 | the packet is `6 + 16 * len(mac)` bytes: six 0xFF bytes, then byte k is MAC byte `(k - 6) mod len(mac)` |
| WakeOnLan.PayloadRejectsStray | jellyfin-nas-suspend.py:96-97 | a character of the MAC string that is not a hex digit, ASCII whitespace, `:` or `-` makes `wake_on_lan` raise |
| WakeOnLan.PayloadLength | jellyfin-nas-suspend.py:96-97 | a packet that is sent has `6 + 8 * d` bytes, for `d` the digits left after dropping separators and whitespace |
| WakeOnLan.PayloadOfPlainMac | jellyfin-nas-suspend.py:96-97 | for a MAC string without whitespace, `wake_on_lan` succeeds iff the characters left after dropping `:` and `-` are an even number of hex digits; the packet then has `6 + 16 * n` bytes for `n` digit pairs, and byte `6 + k` is the value of digit pair `k mod n` |
| WakeOnLan.MacRoundTrip | jellyfin-nas-suspend.py:96-97 | any bytes written as upper-case hex pairs joined by `:` or `-` decode back to the same bytes, so the payload is their magic packet |
| WakeOnLan.ExampleMacPacket | jellyfin-nas-suspend.py:96-97 | for `AA:BB:CC:DD:EE:FF` the payload is the magic packet of the bytes AA BB CC DD EE FF, 102 bytes long |
| WakeOnLan.HexChar | jellyfin-nas-suspend.py:96 | the hex digit written for a value below 16 decodes back to that value |
| Power.Attempts | jellyfin-nas-suspend.py:104-107 | a probe-guarded loop with `left` attempts sends at most `left` commands |
| Power.AttemptsStopAtFirstAnswer | jellyfin-nas-suspend.py:105-106 | one command is sent per probe that reports the wrong state, and sending stops at the first probe that reports the wanted state |
| Power.AttemptsExhaustedIff | jellyfin-nas-suspend.py:104-109 | all attempts are used and the probe after them is still wrong iff every probe of the call is wrong |
| Power.AttemptsIs | jellyfin-nas-suspend.py:104-107 | the loop sends exactly `n` commands when the first `n` probes report the wrong state and then a probe reports the wanted one or the attempts run out |
| Power.WakeUpEnds | jellyfin-nas-suspend.py:96-109 | when the `wake_up` loop stops, the call ends `Reached` on an answer, `Exhausted` after 15 packets, or with a `ValueError` only when nothing could be sent |
| Power.WakeUp | jellyfin-nas-suspend.py:102-109 | the call behaves as `WakeUpBehaviour` describes: it broadcasts as many wake packets as `Attempts` counts for wanted state "awake", each the MAC's datagram, probes once more than it sends, and succeeds iff the last probe is answered; a MAC that does not decode raises at the first send |
| Power.WakeUpGuarantees | jellyfin-nas-suspend.py:102-109 | already awake: no packet, success. Otherwise one wake packet to broadcast port 9 per failed probe, at most 15, stopping at the first answer. It fails exactly when all 16 probes go unanswered, and then exactly 15 packets were sent; it raises exactly when the first probe fails and the MAC does not decode |
| Power.Suspend | jellyfin-nas-suspend.py:111-118 | the call behaves as `SuspendBehaviour` describes: it sends as many `b"suspend"` datagrams as `Attempts` counts for wanted state "asleep", probes once more than it sends, and succeeds iff the last probe goes unanswered |
| Power.SuspendGuarantees | jellyfin-nas-suspend.py:111-118 | already asleep: no command, success. Otherwise one `b"suspend"` to host:port per answered probe, at most 15, stopping at the first unanswered probe. It fails exactly when all 16 probes are answered, and then exactly 15 commands were sent |
| Power.WrittenPing | jellyfin-nas-suspend.py:82-92 | as written, the probe raises exactly when a reply arrives, and never returns true |
| Power.WrittenLoop | jellyfin-nas-suspend.py:96-108 | the loop as written, with the probe's reply check repaired, including the `ValueError` of `wake_on_lan` on an undecodable MAC, never sends more commands than the iterations simulated |
| Power.WrittenLoopNeverGivesUp | jellyfin-nas-suspend.py:105-107 | as written (`max_attempts =- 1`), a NAS that never reaches the wanted state receives commands without end (for `wake_up`, when the MAC decodes; for `suspend`, once the probe is repaired) |
| Power.WrittenLoopRaisesOnBadMac | jellyfin-nas-suspend.py:96-106 | as written, `wake_up` with an undecodable MAC and a NAS that misses the first probe raises `ValueError` with nothing sent |
| Power.WrittenLoopFailsWhenAlreadyThere | jellyfin-nas-suspend.py:105-109 | as written, with the probe repaired, a NAS already in the wanted state still makes the call raise (`mac_attempts` is undefined) |
| Power.CounterCheckIgnoresLastProbe | jellyfin-nas-suspend.py:104-109 | with the counter test `max_attempts == 0`, a NAS that reaches the wanted state at the probe after the 15th command is still reported as a failure |
| Jellyfin.ActivityDates | jellyfin-nas-suspend.py:42-47 | `all_dates` holds one date per session, in session order |
| Jellyfin.Insert | jellyfin-nas-suspend.py:49 | inserting into a sorted list keeps it sorted and adds exactly that element |
| Jellyfin.Sort | jellyfin-nas-suspend.py:49 | `sort()` yields an ascending permutation of the dates |
| Jellyfin.LatestActivity | jellyfin-nas-suspend.py:41-50 | no sessions raise (`all_dates[-1]`). Otherwise the result is one session's date and no session's date is later |
| Jellyfin.LastOfSortedIsMax | jellyfin-nas-suspend.py:49-50 | the last element of a sorted permutation is one of the dates and at least every one of them |
| Arbiter.ActivityQueue.constructor | jellyfin-nas-suspend.py:24 | the activity queue starts empty |
| Arbiter.ActivityQueue.Put | jellyfin-nas-suspend.py:64 | `put` appends the item at the back and changes nothing else |
| Arbiter.ActivityQueue.Get | jellyfin-nas-suspend.py:149-152 | `get` removes and returns exactly the front item; on an empty queue it times out and leaves the queue unchanged |
| Arbiter.Step | jellyfin-nas-suspend.py:147-157 | one iteration calls `wake_up` iff an item was taken and `suspend` iff the wait timed out, and the call behaves as `WakeUp`/`Suspend` state |
| Arbiter.Iteration | jellyfin-nas-suspend.py:147-157 | after the producers' puts, one iteration takes what `Next` says and leaves the queue as `Next` says |
| Arbiter.Next | jellyfin-nas-suspend.py:149-152 | one wait adds exactly one entry to the record of what `get` returned and keeps the earlier entries; the new entry is an item exactly when something was queued or put |
| Arbiter.Replay | jellyfin-nas-suspend.py:147-152 | a run of n waits records exactly n `get` results |
| Arbiter.NextIsFifo | jellyfin-nas-suspend.py:149 | one wait moves the front item, if any, from the queue to the taken items, in order |
| Arbiter.ReplayIsFifo | jellyfin-nas-suspend.py:24 | the items taken, followed by what is still queued, are the starting contents followed by every item put, in order: nothing lost, nothing duplicated, first in first out |
| Arbiter.NextOnlyReadsRest | jellyfin-nas-suspend.py:149 | what a wait takes depends only on what is queued |
| Arbiter.ReplayIdleTimesOut | jellyfin-nas-suspend.py:149-155 | with no activity every wait times out, so every iteration calls `suspend` |
| Arbiter.Advance | jellyfin-nas-suspend.py:147-157 | one more iteration leaves the queue as `Replay` of one more wait says, keeps the earlier reports, and its call woke the NAS iff its `get` returned an item and behaves as specified |
| Arbiter.MainLoop | jellyfin-nas-suspend.py:147-157 | iteration k calls `wake_up` iff `Replay` says its `get` returned an item. Each call behaves as specified, and the queue ends as `Replay` leaves it. The loop runs every iteration unless a call raises, and then stops right after that call |

## Findings

| source | as written | input that shows it | evidently intended | confidence | as-written member | corrected member |
|---|---|---|---|---|---|---|
| jellyfin-nas-suspend.py:107 | `max_attempts =- 1` stores -1, which stays truthy, so the counter never reaches 0 | a NAS that never answers the probe: `wake_up` broadcasts wake packets without end | decrement by one and give up after 15 packets | high, not executed | Power.WrittenLoopNeverGivesUp | Power.WakeUp |
| jellyfin-nas-suspend.py:88 | `self.assertEqual` does not exist on `Nas`, and the `AttributeError` escapes `except socket.timeout` | a NAS that answers the probe: `ping()` raises instead of returning True, so neither loop ever sees an awake NAS | return True when the reply is `pong` | high, not executed | Power.WrittenPing | Power.WakeUpGuarantees |
| jellyfin-nas-suspend.py:116 | `max_attempts =- 1` stores -1, so the counter never reaches 0 | once line 88 is repaired, a NAS that always answers: `suspend` sends `b"suspend"` without end | decrement by one and give up after 15 commands | high, not executed | Power.WrittenLoopNeverGivesUp | Power.Suspend |
| jellyfin-nas-suspend.py:108 | the check reads the undefined name `mac_attempts`, so every call that leaves the loop raises `NameError` | once line 88 is repaired, a NAS that answers the first probe: `wake_up` raises with zero packets sent | test `max_attempts` | high, not executed | Power.WrittenLoopFailsWhenAlreadyThere | Power.WakeUp |
| jellyfin-nas-suspend.py:117 | the check reads the undefined name `mac_attempts` | a NAS that does not answer the first probe: `suspend` raises with zero commands sent | test `max_attempts` | high, not executed | Power.WrittenLoopFailsWhenAlreadyThere | Power.Suspend |
| jellyfin-nas-suspend.py:108 | once the decrement and the name are fixed, `max_attempts == 0` decides failure whatever the probe that ended the loop said | 15 unanswered probes, then an answer on the 16th: "Failed to wake up" although the NAS is awake | fail only if the NAS is still not awake | medium, not executed | Power.CounterCheckIgnoresLastProbe | Power.WakeUp |
| jellyfin-nas-suspend.py:117 | once fixed, `max_attempts == 0` ignores the probe that ended the loop | 15 answered probes, then none on the 16th: "Failed to make the NAS sleep" although it is asleep | fail only if the NAS still answers | medium, not executed | Power.CounterCheckIgnoresLastProbe | Power.Suspend |

## Left out

- `Nas.ping` (jellyfin-nas-suspend.py:82-92): the UDP round trip is an oracle, and the content of the reply is not modelled. As written, any reply makes the probe raise `AttributeError` (`WrittenPing`). `WakeUp`, `Suspend`, `MainLoop` and the oracle of `WrittenLoop` use the repaired probe, which returns true when the NAS answers.
- WrittenLoop: the loops as written are modelled with the probe's reply check repaired. With line 88 as written, the first probe that gets a reply raises `AttributeError`. So as written, `suspend` sends nothing to a NAS that answers, and `wake_up` never reaches line 108.
- Sockets (jellyfin-nas-suspend.py:80, 98-100, 115): sending is modelled by returning the datagrams sent. Socket options, binding and delivery are not modelled.
- `Jellyfin.get_session_list` (jellyfin-nas-suspend.py:36-39): the HTTP request and JSON decoding are I/O. The session list is a parameter.
- `datetime.fromisoformat` (jellyfin-nas-suspend.py:46): dates are integers. A malformed date, a missing `LastActivityDate` key, and mixing naive with aware datetimes raise in the source; they are not modelled.
- `log_watcher_thread` (jellyfin-nas-suspend.py:53-72): `inotifywait` and `time.sleep(30)` are an external process and a clock. Only its `put("logs")` is modelled, as `ActivityQueue.Put`, and the items each producer puts during a wait are a parameter of `MainLoop`.
- As written, `main` never reaches the loop. Line 122 raises `NameError`, because `ArgumentParser` is never imported, and line 145 would raise `NameError` again, because only `Thread` is imported (line 16), not `threading`. Line 145 also has no `.start()`. The watcher itself calls `subprocess.run` (line 57) without importing `subprocess`, so its `NameError` would escape `except FileNotFoundError` before the first `put`. If startup were repaired and the watcher left as it is, nothing would put to the queue and every `get` would time out (`ReplayIdleTimesOut`). `MainLoop`'s `arrivals` model the intended producers.
- `main` startup (jellyfin-nas-suspend.py:121-145): argument parsing, config loading and the token and MAC checks are plumbing. They also use names that are never imported or defined.
- `VERY_OLD` and `STATE_REQUESTS` (jellyfin-nas-suspend.py:19, 27) are never used.
- Timeouts and threads: the 300 s wait and the 2 s probe timeout are abstract outcomes. Concurrent producers are modelled only through the items they put before each `get`.
- `MainLoop`: `while True` is modelled for any finite number of iterations.
- `FromHex`: the position in `bytes.fromhex`'s error message is not modelled, only that it raises. Before Python 3.7 only spaces, not all ASCII whitespace, were skipped; the model follows 3.7+.
- `Sort`: it is an insertion sort rather than Timsort. The sorted permutation of a list of integers is unique, so `LatestActivity` is unaffected.
- `Jellyfin.latest_activity` is never called from `main` in this revision; it is modelled on its own.
