# Real-time DIP switch states over a WebSocket: a Dafny model

The program runs on a NetBurner module. It samples the eight DIP switches of
the carrier board and pushes their states to one browser over a WebSocket,
as a JSON object `{"dipSwitches": {"dip1": "On", ..., "dip8": "Off"}}`.

This project models the core of `main.cpp`:

- **`ReadSwitch`** reads the eight 16-bit A/D results. Logical switch `i`
  reads A/D channel `PinNumber[i]`, with `PinNumber = {7,6,5,3,4,1,0,2}`. Bit
  `i` of the returned byte is set when that reading is above `0x7FFF / 2`
  (16383).
- **`DoSwitches`** clears the global table `dipStates[8][8]` with `memset`.
  It then `strncpy`s `"Off"` into row `i` when bit `i` of the mask is set, and
  `"On"` otherwise.
- **`SendSwitchesReport`** builds the `"dipSwitches"` object with the fields
  `dip1`..`dip8`, in that order, from the rows of `dipStates`.
- **The connection slot `ws_fd`.**
  - `MyDoWSUpgrade` accepts an upgrade only for the URL `INDEX` (any case),
    only while the slot is free (`ws_fd < 0`), and only when the handshake
    succeeds. It then stores the new descriptor and posts the semaphore that
    wakes the reader.
  - The error branch of `InputTask` closes the descriptor and resets the slot
    to -1.
  - The reader and reporter loops serve the slot only while `ws_fd > 0`.

Modules:

- `Switches` (`switches.dfy`):
  - the A/D word type, the pin table and the threshold;
  - `ReadSwitch` as a method with a loop, proved against the specification
    function `SwitchMask`.
- `CStrings` (`cstrings.dfy`): what `strncpy` leaves in a fixed-size buffer,
  and how a NUL-terminated buffer reads back as a string.
- `Report` (`report.dfy`): the report as an ordered list of key/value pairs,
  with a lookup and a reader that turns a report back into the eight labels.
- `Slot` (`slot.dfy`):
  - the `ws_fd` transitions as pure functions;
  - lemmas over whole sequences of upgrade requests and socket errors.
- `Server` (`server.dfy`): the class `DipSwitchDemo`.
  - Its fields are `main.cpp`'s globals: `wsFd`, the pending posts of the
    semaphore, and `dipStates` as an `array2<char>`. A further field,
    `readerWaiting`, records that `InputTask` is blocked inside `OSSemPend`.
  - Its methods change them in place: `MyDoWSUpgrade`, one pass of
    `InputTask`, `DoSwitches` (with `memset` and `strncpy`), and one pass of
    the loop in `UserMain`.
- `Wrappers` (`wrappers.dfy`): `Option`.

The outside world is passed in as parameters, or is not modelled:

- The A/D results arrive as an array indexed by channel.
- The outcome of the `WSUpgrade` handshake arrives as an integer.
- Whether `select()` reported an error arrives as a boolean.
- The report is returned as a value; the socket write is not modelled.

## Model

| member | source | states |
|---|---|---|
| `Switches.ReadSwitch` | main.cpp:149-175 | For every `i` in 0..7, bit `i` of the result is set iff the reading of channel `PinNumber[i]` is above `0x7FFF / 2`. The result equals `SwitchMask(readings)`. The result is a byte, so no bit above 7 exists. |
| `Switches.MaskOf` | main.cpp:165-172 | Bit `i` of the byte assembled from `bits` is set iff `i < |bits|` and `bits[i]`, for all eight bit positions. |
| `Switches.SwitchMaskUnique` | main.cpp:165-172 | Any byte whose eight bits follow the threshold test on the pinned channels is `SwitchMask(readings)`. So the per-bit property pins down the mask. |
| `Switches.MaskDeterminedByBits` | main.cpp:165-172 | Two bytes that agree on bits 0..7 are equal. |
| `Switches.PinNumberIsPermutation` | main.cpp:152 | `PinNumber` maps 0..7 one-to-one onto the channels 0..7. `SwitchOfChannel` is its inverse in both directions. |
| `Switches.ChannelDecidesOneBit` | main.cpp:152-172 | Changing one channel `c` can change only bit `SwitchOfChannel[c]` of the mask, and that bit is the threshold test of channel `c`. |
| `Switches.BitPosBound` | main.cpp:165-170 | The guard `BitPos < 256` holds exactly for positions 0..7. There, `0xFF & BitPos` is the single bit `1 << i`. |
| `CStrings.CString` | main.cpp:98-105 | A buffer reads back as a string iff it contains a NUL. The string is the part before the first NUL, and contains no NUL. |
| `CStrings.StrncpyReadsBack` | main.cpp:196-205 | For a NUL-free source, `strncpy` into an `n`-byte buffer writes a NUL iff the source is shorter than `n`. Then the buffer reads back as exactly the source. |
| `Server.LabelFits` | main.cpp:40 | `"Off"` and `"On"` with their NUL fit in `DIP_STATE_BUF_SIZE` (8). So every row is terminated and reads back as its label. |
| `Server.DipSwitchDemo.DoSwitches` | main.cpp:182-207 | Afterwards every row `i` is exactly the `strncpy` of `"Off"` when bit `i` of `sw` is set, and of `"On"` otherwise. No byte of the old table survives. The table reads back as `Labels(sw)`. |
| `Server.DipSwitchDemo.Memset` | main.cpp:191 | All 64 bytes of `dipStates` are NUL. |
| `Server.DipSwitchDemo.CopyRow` | main.cpp:199-204 | For a NUL-free `src`, row `i` becomes `Strncpy(src, 8)`. Every other row is unchanged. |
| `Server.DipSwitchDemo.TableReadsBack` | main.cpp:191-206 | A table whose rows are the `strncpy`s of eight labels that fit is valid (every row terminated) and reads back as exactly those labels. |
| `Server.DipSwitchDemo.RowReadsBack` | main.cpp:196-205 | A row holding the `strncpy` of a label that fits is terminated and reads back as that label. |
| `Server.DipSwitchDemo.constructor` | main.cpp:45-47 | At start `ws_fd` is -1, no semaphore post is pending (the semaphore starts at count 0, main.cpp:215), and the zero-filled table holds eight empty strings. |
| `Server.DipSwitchDemo.SendSwitchesReport` | main.cpp:90-115 | The report is `Report.Build` of the eight strings in `dipStates`, with fields added as `dip1`..`dip8`. Equal tables give equal reports. |
| `Report.BuildInOrder` | main.cpp:96-107 | The report is the object `"dipSwitches"` with the fields `dip1`..`dip8` in exactly this order, `dipK` carrying label `K-1`. |
| `Report.BuildShape` | main.cpp:96-107 | The report has exactly eight fields. Field `k` has key `dip(k+1)` and value `states[k]`. Keys strictly ascend by their switch number. |
| `Report.BuildLookup` | main.cpp:98-105 | Looking up `dipK` in the report gives `states[K-1]`. |
| `Report.BuildRoundTrip` | main.cpp:96-107 | Reading the labels back out of a built report gives the labels it was built from. So reports built from different tables differ. |
| `Report.KeyIndex` | main.cpp:98-105 | A key that parses as a switch number `k` is in 1..8 and is exactly `DipKey(k)`. |
| `Report.KeyIndexOfDipKey` | main.cpp:98-105 | `DipKey(k)` parses back to `k`, so the eight keys are distinct. |
| `Report.LookupFirst` | main.cpp:98-105 | Lookup returns the value of the first field that carries the key. |
| `Server.ReportOfMask` | main.cpp:196-205 | Field `dipK` of the report for mask `sw` is `"Off"` iff bit `K-1` of `sw` is set, and `"On"` otherwise. |
| `Server.ReportOfReadings` | main.cpp:149-207 | End to end: field `dipK` is `"Off"` iff the reading of channel `PinNumber[K-1]` is above 16383. |
| `Server.AllOnReport` | main.cpp:96-107 | With no bit set, the report is `dipSwitches` with `dip1`..`dip8` all `"On"`, in order. |
| `Server.DipSwitchDemo.MyDoWSUpgrade` | main.cpp:117-140 | Returns 2 iff the URL matches `INDEX`, `ws_fd < 0` and the handshake result is `>= 0`. In that case `ws_fd` becomes the new descriptor and one semaphore post is added. Otherwise it returns 0 and changes neither `ws_fd` nor the semaphore. It answers not-found exactly when the URL does not match or the slot is not free. |
| `Server.DipSwitchDemo.InputTaskStep` | main.cpp:59-87 | A reader blocked in `OSSemPend` first finishes the pend: it takes one pending post and returns to the loop, or stays blocked, and `ws_fd` is not tested. Otherwise, while `ws_fd > 0`, an error closes exactly the old descriptor and sets `ws_fd` to -1, and data readiness changes nothing. While `ws_fd <= 0`, `ws_fd` is unchanged; one pending post is taken, or the reader blocks when none is pending. |
| `Server.DipSwitchDemo.UserMainStep` | main.cpp:226-237 | A report is produced iff `ws_fd > 0`. It comes from the table just rewritten from `SwitchMask(readings)`. Otherwise the table is unchanged. |
| `Slot.UpgradeCases` | main.cpp:119-139 | An upgrade is accepted iff the URL matches, the slot is free and the handshake result is `>= 0`; the slot then holds that result and the return code is 2. Every other request leaves the slot unchanged. Not-found is sent iff the URL fails to match or the slot is not free. |
| `Slot.HeldUntilError` | main.cpp:117-140 | A slot holding a descriptor `>= 0` keeps it, and accepts no upgrade, for any sequence of requests without a socket error. A slot holding 0 keeps 0 even when errors occur. |
| `Slot.ZeroSlotIsStuck` | main.cpp:117-140 | `ws_fd == 0` is neither active (`> 0`) nor free (`< 0`). From 0, every event sequence leaves the slot at 0 and accepts nothing. |
| `Slot.OneConnectionBetweenErrors` | main.cpp:121-128 | Along any sequence of events without a socket error, at most one upgrade is accepted. |
| `Slot.ErrorFreesSlot` | main.cpp:67-72 | The error branch frees an active slot, and a following matching request with a good handshake is accepted. Without the error, the same request is refused and the slot keeps its descriptor. |
| `Slot.IndexSpellings` | main.cpp:119 | Under the whole-URL reading assumed for `httpstricmp` (see `Slot.UrlMatches` under Left out): `INDEX`, `index` and `InDeX` match. The empty URL, `index.html` and `INDEY` do not. |

## Left out

- `SimpleAD.cpp` is not part of this model. It is register-level A/D driver
  code: initialisation, starting a conversion, polling for completion, and
  reading one result register. The readings are a parameter.
- The one-time init flag and the busy-wait on `ADDone()` in `ReadSwitch` are
  hardware sequencing.
- The other platform's `getdipsw()` is not modelled. `DoSwitches` takes the
  switch byte as a parameter, so it covers both sources. `UserMainStep`
  supplies it from `ReadSwitch`.
- `ws_setoption(ws_fd, WS_SO_TEXT)` is a socket option, not modelled.
- `NotFoundResponse` is modelled only as the `notFound` result.
- `select`, `read`, `ws_flush` and `close` are socket I/O. `InputTaskStep`
  gets select's error readiness as a boolean.
- The read in `InputTask` writes through an uninitialised pool pointer; this
  is not modelled.
- After the error branch resets `ws_fd` to -1, `InputTask` still tests
  `FD_ISSET(-1, &read_fds)` in the same pass. The model takes the read branch
  only when the error branch was not taken.
- `writeall`, `PrintObjectToBuffer` and the 512-byte `ReportBuffer` are not
  modelled. The JSON library's bytes and whitespace are not visible, so the
  report is the ordered key/value list given to the builder.
- Concurrency is not modelled.
  - The two tasks and the upgrade handler interleave freely in the program.
  - The model gives one step of each as a sequential method on the shared
    state.
  - The `ws_fd` races between the tasks are not modelled.
  - `OSSemPend` that finds no post returns `Blocked` and sets
    `readerWaiting`. The reader's next pass finishes that pend before it tests
    `ws_fd` again. A post made while the reader waits is counted in the
    semaphore and taken on that pass, rather than handed straight to the
    waiting task; the order of events is the same.
- The one-second `OSTimeDly` while idle, network bring-up, DHCP, autoupdate,
  smart traps and `iprintf` logging are infrastructure, not modelled.
- `Slot.UrlMatches`: the definition of `httpstricmp` is not part of this
  model. It is assumed to compare the whole URL with `INDEX` ignoring ASCII
  case. A prefix comparison would also accept, for example, `index.html`.
- Not modelled: an inbound message framer, message parsing and LED
  actuation. `main.cpp` has none of them; its `InputTask` only reads and
  flushes the input.
- A descriptor of 0 is neither free (`ws_fd < 0`, main.cpp:121) nor active
  (`ws_fd > 0`, main.cpp:61, main.cpp:228). It is accepted but never served
  or freed (`Slot.ZeroSlotIsStuck`).
