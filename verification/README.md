# RFID door lock and whitelist cache, in Dafny

This project models the makerspace RFID door lock (`main.py`) and the
script that caches its whitelist (`getrfids.py`).

The door lock listens to a Wiegand card reader on two data lines. A
falling edge on pin 7 appends a `'0'` to the current frame and one on
pin 13 appends a `'1'`. Each edge also stamps the frame with its time.
The main loop does three things on every pass:

1. It flushes a frame once more than 100 ms have passed since its last bit.
   A frame of more than 30 bits is decoded: the last bit is dropped, the
   rest is read as binary and printed with `hex(...).upper()`, and the
   result loses its first three characters (`0X` and the leading digit).
   `authorized` is then set to whether that ID is a line of the whitelist
   file. Frames of any length are reset after the flush.
2. It opens a locked door when a scan is authorized. The relay goes HIGH,
   the open time is stamped, and the authorization is used up.
3. It relocks an open door once strictly more than one second has passed
   since it was opened. The relay goes LOW.

`getrfids.py` splits the server's response on newlines. It cuts every
token to its last eight characters and writes each on its own line
followed by `"\n"`. The door lock opens the file in text mode, which
reads every `"\r\n"` and lone `"\r"` as `"\n"`. It then splits that text
with `split("\n")`.

Modules:

- `PyBuiltins` (`py_builtins.dfy`) covers the Python built-ins the code
  relies on: `int(s, 2)`, `hex`, ASCII `str.upper`, `str.split` with
  its inverse `join`, and the newline translation of a text-mode read.
  It also gives a reference reading of upper-case hexadecimal strings.
- `IdDecoder` (`id_decoder.dfy`) models the frame-to-ID expression of
  `main.py` line 81.
- `DoorLock` (`door_lock.dfy`) models the frame accumulator and the lock
  state machine. They are pure functions over an immutable `Door` record.
  Runs are sequences of reader edges and loop passes.
- `RfidCache` (`rfid_cache.dfy`) models how tokens are normalised and how
  the cache text is laid out.
- `Interplay` (`interplay.dfy`) connects the cache writer to the lock.

Time is given in integer milliseconds with each event. The relay is the
boolean level of its output pin.

One interaction across the two files is stated and proved. Every cached
line ends in `"\n"`, so `""` is always among the lines the lock reads.
A frame of more than 30 bits whose payload is below 16 decodes to `""`.
Such a frame, for example 31 zero bits, therefore opens the door whatever
the server sent (`Interplay.LowValueFrameOpensDoor`,
`Interplay.ThirtyOneZerosOpenDoor`).

The lock's view of the cache is exactly the normalised tokens followed by
`""` if and only if no cached line, that is no token's last eight
characters, holds `"\r"` (`Interplay.LockReadsCache`). A `"\r"` that the
cut to eight characters removes never reaches the file. A token ending in
`"\r"`, as a CRLF response gives, is cached with its `"\r"`. The lock
reads that line back one character short
(`Interplay.CarriageReturnIsDropped`).

The tests under `tests/` import `Laser`, `Timer`, `AuthManager` and
`StateValues` from `main.py`, which does not define them, so the model
follows `main.py`.

## Model

| member | source | states |
|---|---|---|
| `PyBuiltins.Split` | main.py:74 | `str.split` on a one-character separator always yields at least one piece. No piece holds the separator. Joining the pieces with the separator gives back the text. |
| `PyBuiltins.SplitJoin` | getrfids.py:37 | Splitting undoes joining, for pieces that hold no separator. |
| `PyBuiltins.SplitTrailingSeparator` | getrfids.py:37 | A trailing separator adds exactly one final empty piece to the split. |
| `PyBuiltins.UpperHexDigits` | main.py:81 | `hex(v).upper()` without `0x` is a numeral of upper-case hex digits that denotes v. It has exactly as many digits as v needs. It is one digit long iff v < 16. |
| `IdDecoder.DecodeId` | main.py:81 | The ID holds only `0-9A-F`. It has one digit fewer than the shortest hex numeral for v, the binary value of all bits but the last. It denotes v with its leading hex digit removed, i.e. v mod 16^len. It is `""` iff v < 16. |
| `IdDecoder.DecodeIdUnique` | main.py:81 | Exactly one string meets `DecodeId`'s contract, so that contract fully specifies the decoded ID. |
| `IdDecoder.DecodeIgnoresLastBit` | main.py:81 | Two frames that differ only in their last bit decode to the same ID. |
| `PyBuiltins.TextModeRead` | main.py:73-74 | A text-mode read returns text with no `"\r"`. Text without `"\r"` reads back unchanged. A file ending in `"\n"` reads as text ending in `"\n"`. The two lemmas below state the translation of `"\r"`. |
| `PyBuiltins.TextModeReadPlain` | main.py:73-74 | A stretch of the file without `"\r"` reads back unchanged, whatever follows it. |
| `PyBuiltins.TextModeReadCrlf` | main.py:73-74 | For any text `p` without `"\r"` and any rest `t`, `p + "\r\n" + t` reads as `p + "\n"` followed by the read of `t`. |
| `PyBuiltins.TextModeReadLoneCr` | main.py:73-74 | For any text `p` without `"\r"` and any rest `t` not starting with `"\n"`, `p + "\r" + t` reads as `p + "\n"` followed by the read of `t`. |
| `DoorLock.Whitelist` | main.py:73-74 | The whitelist is the text-mode read of the file, split on `"\n"`. No line holds `"\n"` or `"\r"`. Joined, the lines give back the text as read, which is the file itself when it holds no `"\r"`. |
| `DoorLock.ResetScan` | main.py:16-21 | Empties the bit string and clears the in-frame flag. The decision and the lock are untouched. |
| `DoorLock.Detect` | main.py:24-32 | An edge on pin 7 appends `'0'` and one on pin 13 appends `'1'`, exactly one character. It marks the frame in progress and stamps it with the edge time. Nothing else changes. On any other pin the stamp still happens but no bit is added. |
| `DoorLock.Flush` | main.py:77-84 | The state changes iff a frame is in progress and strictly more than 100 ms have passed since its last bit. Any flushed frame is reset. A flushed frame of more than 30 bits sets `scannedId` to its decoded ID. It overwrites `authorized` with exact membership of that ID in the whitelist. A shorter frame leaves `authorized` and `scannedId` alone. |
| `DoorLock.UnlockDoor` | main.py:37-43 | The door is unlocked, the relay is HIGH and the open time is now. The frame and the decision are untouched. |
| `DoorLock.LockDoor` | main.py:46-49 | The door is locked, the relay is LOW and the open time is kept. The frame and the decision are untouched. |
| `DoorLock.UnlockRule` | main.py:86-88 | Only `authorized ∧ locked` fires the rule. It consumes the authorization, unlocks the door, drives the relay HIGH and stamps the open time. Otherwise nothing changes. |
| `DoorLock.RelockRule` | main.py:90-91 | The lock state changes iff the door is open and strictly more than 1000 ms have passed since it opened. It then becomes locked with the relay LOW. Otherwise nothing changes. |
| `DoorLock.Step` | main.py:76-91 | One loop pass keeps the relay mirroring the lock. A pass that opens the door is one where the unlock rule fired, and it stamps the open time. A pass that relocks comes more than 1 s after the door opened. After the pass no frame is in progress unless one was in progress and had not yet gone quiet. |
| `DoorLock.Init` | main.py:68-71 | The loop starts with an empty frame, the door locked, the relay LOW, no authorization and an empty scanned ID. |
| `DoorLock.OneUnlockPerAcceptance` | main.py:80-88 | Over any run of edges and loop passes, the door opens at most as often as frames are accepted, plus one if an authorization was already pending. |
| `DoorLock.RunKeepsRelayMirror` | main.py:37-49 | Every edge and loop pass preserves "relay HIGH iff unlocked". |
| `DoorLock.ReachableRelayMirrorsLock` | main.py:68-91 | In every state reachable from start-up, the relay is HIGH iff the door is unlocked. |
| `DoorLock.EdgesAccumulate` | main.py:24-32 | A burst of edges appends one bit per data-line edge, in arrival order. It leaves the frame stamped with the last edge's time and does not touch the decision or the lock. |
| `DoorLock.FlushStartsFreshFrame` | main.py:77-84 | After a flush the next frame holds exactly the bits of the edges that follow it. Nothing from the flushed frame carries over. |
| `DoorLock.StaysOpenForDelay` | main.py:86-91 | An open door stays open, with the same open time, through every loop pass up to 1000 ms after it opened. |
| `RfidCache.Tokens` | getrfids.py:37 | The response splits into at least one newline-free token. The tokens join back to the body. |
| `RfidCache.Normalize` | getrfids.py:45 | The kept line is the last min(8, len) characters of the token. Shorter tokens pass through whole. |
| `RfidCache.NormalizeIdempotent` | getrfids.py:45 | Cutting a token to its last eight characters twice gives the same as cutting once. |
| `RfidCache.CacheFileIsJoin` | getrfids.py:43-46 | The cache text is the normalised tokens, one per line in input order, each ended by `"\n"`. |
| `RfidCache.CacheFile` | getrfids.py:41-46 | A cache written from at least one token ends in a newline. |
| `RfidCache.CacheRoundTrip` | getrfids.py:43-46 | For newline-free tokens, splitting the written text on `"\n"` gives the normalised tokens in order, followed by exactly one `""`. |
| `RfidCache.ResponseRoundTrip` | getrfids.py:37-46 | For any response body, the cache of its tokens reads back as their normalised forms followed by `""`. |
| `RfidCache.TrailingNewlineCachesEmptyLine` | getrfids.py:37-46 | A body ending in a newline yields a final empty token. That token is cached as an empty line, so the cache reads back ending in two `""` lines. |
| `Interplay.CachedWhitelistHasEmptyLine` | getrfids.py:41-46 | `""` is a whitelist line for every cache file the writer can produce. |
| `Interplay.LockReadsCache` | main.py:73-74 | For newline-free tokens, the lock's whitelist is exactly the normalised tokens in order followed by one `""`, if and only if no normalised token holds `"\r"`. |
| `Interplay.CarriageReturnIsDropped` | main.py:73-74 | The token `"ABCD1234\r"` is cached as `"BCD1234\r\n"`. The lock reads it back as the lines `"BCD1234"` and `""`. |
| `Interplay.LowValueFrameOpensDoor` | main.py:77-88 | A quiet frame of more than 30 bits with a payload below 16 decodes to `""`. Under any cached whitelist, it opens a locked door in that same pass. |
| `Interplay.ThirtyOneZerosOpenDoor` | main.py:24-88 | From start-up, 31 edges on pin 7 followed by a loop pass after the quiet timeout open the door, whatever tokens were cached. |

## Left out

- GPIO setup, pin defaults (`defaults.py`) and the relay output calls are hardware plumbing. The relay is modelled as a boolean level.
- The clock is an integer millisecond argument, read once per loop pass. The code reads the clock separately on lines 77, 42 and 90. Its float-second differences below one millisecond are not represented. The 1 ms `time.sleep` between passes is not modelled; the caller chooses pass times.
- Concurrency between the GPIO callback thread and the main loop is not modelled. Each edge is one atomic event between loop passes, so bits that arrive between the decode and the reset of one pass are out of scope.
- An edge on a pin other than 7 or 13 raises a KeyError inside the callback. Only its effect on the state is modelled: the frame is stamped and no bit is added.
- Network code is left out: the HTTP request in `getrfids`, its error exits, and `util.report_attempt`. So are environment lookups and the UTF-8 decoding of the response; the body is a string.
- File opening, reading and writing in `main.py`, `util.load_whitelist` and `cacheRFIDs` are left out. The cache file is the string that would be written.
- Debug printing and the token count printed by `getrfids.main` are left out.
- The text-mode read's character decoding is left out; only its newline translation is modelled.
- `str.upper` is modelled for ASCII only. Only `0x` and hex digits reach it.
- The `Laser`, `Timer`, `AuthManager`, `StateValues` and controller behaviour asserted under `tests/` is left out. Those classes are not part of this model: the repository's `main.py` does not define them.
