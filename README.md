# Open-house planner: QR tickets, attendance scanning and booking rules

This Dafny project models the computational core of a small open-house
planner web app. Parents book sessions in a week planner. Each booking gets
a ticket that shows a QR code. At the door a scanner reads the code and marks
the booking attended.

The model covers four parts of the app:

- **The QR encoder** (`src/qrgen.ts`):
  - the 8-bit-byte data segment and the bit buffer it is written into
  - the GF(256)-style `glog`/`gexp` tables and the (unused) polynomial type
  - the single RS block and the data-codeword construction: mode, length,
    terminator, byte alignment and 0xEC/0x11 padding
  - the finder patterns, the zig-zag placement of data bits into the 25 x 25
    matrix, and `isDark`
- **The seed data** (`src/data.ts`): the 32-bit djb2-style `hashString`,
  teacher and friend selection driven by that hash, and `classNames`.
- **The scanner** (`src/Scan.tsx`): which decoded codes it acts on, how it
  reads the booking id out of a ticket payload, and `markAttended` over the
  stored bookings.
- **The planner** (`src/MobilePlanner.tsx`): its copy of `hashString`,
  `toggleBook`, the selected count, the availability badge and the disabled
  rule of the book button.

JavaScript values are modelled explicitly (module `Js`):

- Strings are sequences of UTF-16 code units.
- `<<`, `|0` and `^` wrap to int32, and `>>>` converts to uint32. Both
  conversions are written out modulo 2^32.
- `undefined` is `None`, and a thrown error is `Throws`.

Stateful code keeps its form:

- The bit buffer is a class with a `buffer` of bytes and a `length`. It also
  has a ghost `Contents`, the bits written so far.
- The module matrix is an `array2<bool>`. Finder stamping and data placement
  are methods with loops over it.

The methods of the bit buffer, the exp/log table builders, the polynomial
constructor and the symbol are proved against specification functions. For
example, `PlaceData` leaves every module equal to
`Cell(old(matrix), data, 600, i, j)`, a closed form of the placement walk,
and `CreateQRCode` leaves every module equal to `SymbolModule(text, i, j)`.
`Polynomial.Multiply` and `Polynomial.Mod` are specified only by when they
throw and the shape of their result (see "Left out"). Lemmas then state
what the symbol looks like:

- the dark finder modules survive (`Symbol.FinderDarkKept`)
- every one of the 176 data bits is placed
- columns 0 to 6 are exactly the stamped finders
- only the first 21 code units of the text reach the symbol

### Where the encoder departs from ISO/IEC 18004

The encoder borrows the structure of a QR Code symbol as defined by
ISO/IEC 18004 (version 2, 25 x 25 modules), but leaves out or changes much
of it. The model follows the code:

- **No error correction.** ISO/IEC 18004 appends Reed-Solomon
  error-correction codewords to the data codewords. The encoder computes
  none. `QRPolynomial` is never called by
  `createQRCode`, so the six error-correction codewords of the block are
  never produced.
- **RS block.** The block is (28 total, 22 data) regardless of the
  arguments given to `getRSBlocks`.
- **Over-long input.** ISO/IEC 18004 has no way to put more data than the
  capacity into a symbol; the encoder truncates silently:
  - the length field is the text length modulo 256
  - only the first 22 data bytes are placed

  `Payload.TailIgnored` and `Scan.TicketsCollide` state the consequence. A
  ticket payload is 18 units of prefix plus the booking id. Two ids of equal
  length that share their first three units therefore give identical symbols.
- **Not a GF(256) table.** ISO/IEC 18004 computes over GF(256) with the
  prime polynomial 0x11D. When doubling a value with bit 7 set, the code
  xors in 0x1D but never drops the carry into bit 8:
  - `gexp(8)` is 285, as proved in `Galois.GexpLowPowers`
  - the log table is keyed by those unreduced values
  - `gexp` returns `undefined` outside 0..511 rather than reducing modulo 255

  `Galois.GlogGexp` states the round trip only where it actually holds.
- **Function patterns.** In ISO/IEC 18004 data placement skips the finder
  patterns, their separators and the other function patterns. Here the
  matrix holds `false` both for "unset" and for "light", so placement
  writes data into:
  - every light module of the finder patterns it reaches
  - the separator ring, which `placeFinder` leaves untouched

  `Symbol.TopRightOverwritten` shows this for the light module (1, 23) of
  the top-right finder, which takes data bit 40; `Scan.TicketFinderCorrupted`
  shows that on every ticket that bit is 1, so the module turns dark. The
  walk also passes through the light modules of the two left finders in
  columns 0 to 5, but only after all 176 data bits are spent: it writes 0
  there, so those modules stay light (`Symbol.LeftColumnsKept`).
- **`isDark` domain.** The code throws for a row outside the grid and
  returns `false` for a column outside it (`Symbol.IsDark`).

## Model

| member | source | states |
|---|---|---|
| Js.ToInt32 | src/data.ts:41-42 | `h \|= 0` yields an int32 congruent to its operand modulo 2^32, and leaves an int32 unchanged |
| Js.ToUint32 | src/qrgen.ts:22 | the operand of `>>>` becomes a uint32 congruent to it modulo 2^32 |
| Js.ToInt32Congruent | src/data.ts:41-42 | operands congruent modulo 2^32 wrap to the same int32 |
| Js.OrBits | src/qrgen.ts:22 | bit j of `a \| b` is set iff bit j is set in a or in b |
| Js.OrBound | src/qrgen.ts:22 | or-ing two k-bit values stays below 2^k, so a byte stays a byte |
| Js.XorBits | src/qrgen.ts:16 | bit j of the exclusive or is set iff exactly one operand has bit j |
| Js.XorBound | src/qrgen.ts:16 | the exclusive or of two k-bit values stays below 2^k, so a uint32 stays a uint32 |
| Js.LowBits | src/qrgen.ts:7 | the low 8 bits after `>>>` are those of the value modulo 256, so `put(charCodeAt(i), 8)` writes the low byte of the code unit |
| QrBits.Mask | src/qrgen.ts:22 | `0x80 >>> (length % 8)` is the single bit 7 - m |
| QrBits.OrBit | src/qrgen.ts:22 | or-ing the mask into a byte sets exactly bit m and keeps the others |
| QrBits.SetHolds | src/qrgen.ts:22 | setting the next bit of the byte array appends `true` to the bits it holds and leaves every later bit clear |
| QrBits.GrowHolds | src/qrgen.ts:22 | pushing a zero byte keeps the held bits and adds only clear bits |
| QrBits.BitBuffer.constructor | src/qrgen.ts:21 | a new buffer is empty and holds no bits |
| QrBits.BitBuffer.Get | src/qrgen.ts:22 | `get(i)` is the i-th written bit, and false past the end |
| QrBits.BitBuffer.PutBit | src/qrgen.ts:22 | `putBit` appends exactly one bit, growing the byte array when a new byte starts |
| QrBits.BitBuffer.Put | src/qrgen.ts:22 | `put(num, length)` appends the low `length` bits of num, most significant first |
| Galois.ExpPeriodic | src/qrgen.ts:13 | the exp table repeats with period 255: entry i + 255 equals entry i and entry (i + 255) mod 255 |
| Galois.FillPowers | src/qrgen.ts:13 | the first loop stores the 255 successive generator values in entries 0..254 and leaves entries 255..511 as they were |
| Galois.FillCycle | src/qrgen.ts:13 | the second loop copies entry i - 255 into entries 255..511 and keeps the first 255 |
| Galois.ExpCycle | src/qrgen.ts:13 | a 512-entry table with those two properties is the exp table |
| Galois.BuildExp | src/qrgen.ts:13 | the table builder yields exactly the exp table |
| Galois.BuildLog | src/qrgen.ts:12 | the log-table builder yields exactly the log table |
| Galois.LogTableShape | src/qrgen.ts:12 | every byte is a key of the log table, and every entry is either an untouched 0 under a byte key or an exponent l stored under the generator value of l |
| Galois.Glog | src/qrgen.ts:12 | `glog` throws iff its argument is below 1, and returns an exponent below 255 for a byte from 1 to 255 |
| Galois.Gexp | src/qrgen.ts:13 | `gexp` is defined iff its argument is in 0..511 |
| Galois.GexpOfExponent | src/qrgen.ts:13 | `gexp(l)` is the l-th generator value for l < 255 |
| Galois.GexpLowPowers | src/qrgen.ts:13 | `gexp(k) = 2^k` for k < 8, and `gexp(8) = 285`: the table is not reduced to a byte |
| Galois.GlogGexp | src/qrgen.ts:12-13 | for a byte n from 1 to 255, `glog(n)` returns an exponent l that is 0 or satisfies `gexp(l) = n` |
| Polynomial.Xor | src/qrgen.ts:16 | `x ^ y` is an int32 whose 32 bits are the exclusive or of the bits of both operands, an undefined operand counting as 0, so `x ^= undefined` only wraps x |
| Polynomial.ProductTerm | src/qrgen.ts:16 | a term of `multiply` for byte coefficients from 1 to 255 is the generator value at the sum of their logs modulo 255, never undefined |
| Polynomial.ScaledTerm | src/qrgen.ts:16 | a term of `mod` is the generator value at the exponent sum modulo 255 when that sum is non-negative, and undefined when the ratio makes it negative |
| Polynomial.LeadingZeros | src/qrgen.ts:15 | the constructor's first loop stops at the first non-zero coefficient |
| Polynomial.NewPolynomial | src/qrgen.ts:15 | the constructor drops leading zeros, appends `shift` zeros, and starts with a non-zero coefficient when the input has one |
| Polynomial.Multiply | src/qrgen.ts:16 | `multiply` throws iff glog sees a coefficient below 1 (or both operands are empty); otherwise the product has at most \|a\|+\|b\|-1 coefficients and no leading zero |
| Polynomial.Mod | src/qrgen.ts:16 | `mod` returns its receiver when it is shorter than the divisor, and any remainder is shorter than the divisor; when the receiver is at least as long and fuel is left, it throws if the receiver's leading coefficient or any coefficient of the divisor is below 1 |
| Payload.GetRSBlocks | src/qrgen.ts:19 | `getRSBlocks` returns one block with 22 data codewords and 6 error-correction codewords |
| Payload.TotalDataCountAppend | src/qrgen.ts:31 | the `reduce` over the blocks is additive: a concatenation contributes the totals of both parts |
| Payload.DataCapacity | src/qrgen.ts:19-31 | the one RS block gives 22 data codewords |
| Payload.AlignGap | src/qrgen.ts:33 | the alignment gap is below 8 and reaches a byte boundary |
| Payload.GapFirst | src/qrgen.ts:33 | the alignment loop stops at the first byte boundary, after exactly the alignment gap |
| Payload.UnitBitsAt | src/qrgen.ts:7 | `write` puts the 8 bits of code unit i at bits 8i..8i+7 of the segment |
| Payload.ModeBits | src/qrgen.ts:30 | the mode indicator `put(4, 4)` is 0100 |
| Payload.ByteBits | src/qrgen.ts:30 | an 8-bit `put` writes the low byte, most significant bit first |
| Payload.StreamBit | src/qrgen.ts:30 | every bit of mode, length and data agrees with the reference bit layout |
| Payload.AlignedLayout | src/qrgen.ts:32-33 | the segment has 12 + 8n bits; terminator and alignment together always add exactly four zero bits; the terminator is written iff n <= 20 |
| Payload.PaddedLayout | src/qrgen.ts:34 | for n <= 20 exactly 20 - n pad bytes fill the buffer to 176 bits; for longer text nothing is padded and the buffer exceeds 176 bits |
| Payload.PadBitsAt | src/qrgen.ts:34 | pad byte j sits at bits 8j..8j+7 of the padding |
| Payload.PadAt | src/qrgen.ts:34 | pad bytes alternate 0xEC, 0x11 after a byte-aligned prefix |
| Payload.PadBit | src/qrgen.ts:34 | every padding bit below 176 agrees with the reference layout |
| Payload.PaddedBit | src/qrgen.ts:29-34 | every one of the first 176 bits of the finished buffer agrees with the reference layout |
| Payload.TailIgnored | src/qrgen.ts:29-35 | texts of one length that agree on their first 21 units give the same first 176 bits |
| Payload.TailIgnoredBit | src/qrgen.ts:29-35 | the same, bit by bit, for the reference layout |
| Payload.PutSegment | src/qrgen.ts:30 | the segment writes mode, length and the code units |
| Payload.PutTerminator | src/qrgen.ts:32 | four zero bits are added iff they still fit in 176 bits |
| Payload.AlignToByte | src/qrgen.ts:33 | zero bits are added up to the next byte boundary |
| Payload.PadRound | src/qrgen.ts:34 | one loop round adds 0xEC, then 0x11 unless capacity is reached after the first |
| Payload.PutPadding | src/qrgen.ts:34 | padding appends the alternating pad bytes until 22 bytes are full |
| Payload.EncodeData | src/qrgen.ts:29-35 | `data` has 22 bytes, a missing byte reads 0, and bit k of data is the reference layout's bit k below 176 and 0 beyond |
| Symbol.PlaceFinder | src/qrgen.ts:38 | `placeFinder` sets the 7 x 7 pattern and leaves every other module, including the separator ring, as it was |
| Symbol.Stamped | src/qrgen.ts:37-39 | the stamped grid is dark exactly on the dark modules of the three finders |
| Symbol.StampFinders | src/qrgen.ts:37-39 | a matrix of `false` with the three finders stamped is the stamped grid |
| Symbol.VisitIndex | src/qrgen.ts:41-45 | each of the 600 visits is to a module outside column 6, and `Index` recovers the visit |
| Symbol.IndexVisit | src/qrgen.ts:41-45 | each module outside column 6 is visited exactly once, at visit `Index(i, j)` |
| Symbol.CellStep | src/qrgen.ts:46-53 | a visit writes the next data bit into its module iff the module is still `false`, and changes nothing else |
| Symbol.CellStart | src/qrgen.ts:40 | before any visit the matrix is as stamped |
| Symbol.CounterBit | src/qrgen.ts:48-53 | byteIndex and bitIndex address bit 8b+k, and the bit is 0 once the data is exhausted |
| Symbol.Visit | src/qrgen.ts:45-53 | one visit of the walk keeps the counters equal to the number of free modules passed, and the matrix equal to the closed form |
| Symbol.VisitRow | src/qrgen.ts:44-54 | the two modules of one row are visited right then left |
| Symbol.NextPair | src/qrgen.ts:55-56 | bouncing off an edge reverses direction and starts the next pair at the opposite edge |
| Symbol.VisitAt | src/qrgen.ts:41-45 | visit 50p + 2s + c is row s of pair p (from the bottom in even pairs), right column first |
| Symbol.PlacePair | src/qrgen.ts:43-57 | walking one column pair visits its 50 modules, ends at the next pair's start row with the direction reversed, and keeps the matrix equal to the closed form |
| Symbol.PlaceData | src/qrgen.ts:40-58 | the placement loop leaves every module equal to the closed form after all 600 visits |
| Symbol.RankBound | src/qrgen.ts:46-53 | the bit counter never exceeds the number of visits |
| Symbol.RankStrict | src/qrgen.ts:46-53 | distinct free modules receive distinct data bits |
| Symbol.RankMono | src/qrgen.ts:46-53 | the bit counter never decreases along the walk |
| Symbol.RankOnto | src/qrgen.ts:46-53 | every bit index below the counter went to some free module |
| Symbol.MiddleFree | src/qrgen.ts:37-39 | columns 7 to 16 hold no finder module |
| Symbol.MiddleRank | src/qrgen.ts:41-54 | after visit v in columns 7 to 16, at least v - 200 bits have been placed |
| Symbol.AllBitsPlaced | src/qrgen.ts:40-58 | each of the 176 data bits is placed in some free module |
| Symbol.BitInSymbol | src/qrgen.ts:24-60 | a free module holds the data bit of its rank |
| Symbol.FinderDarkKept | src/qrgen.ts:38-46 | every dark finder module stays dark |
| Symbol.LeftColumnsKept | src/qrgen.ts:38-58 | columns 0 to 6 end exactly as stamped |
| Symbol.RightPair | src/qrgen.ts:41-45 | the first 50 visits walk the rightmost column pair from the bottom up, right column first |
| Symbol.RankStep | src/qrgen.ts:46-53 | the bit counter grows by one exactly at a visit to a module that is light after stamping |
| Symbol.RankBelowFinder | src/qrgen.ts:41-53 | the first 36 visits, below the top-right finder, each take one data bit |
| Symbol.RankInFinder | src/qrgen.ts:38-53 | inside the top-right finder's two right columns only the light column-23 modules of rows 2 to 5 take bits |
| Symbol.RankAt47 | src/qrgen.ts:38-53 | 40 data bits are spent before visit 47 |
| Symbol.TopRightOverwritten | src/qrgen.ts:38-51 | the light finder module (1, 23) is visit 47 and takes data bit 40 instead of staying light |
| Symbol.TailIgnoredSymbol | src/qrgen.ts:24-60 | texts of one length that agree on their first 21 units give the same symbol |
| Symbol.PlacedSymbol | src/qrgen.ts:40-58 | placing the encoded data into the stamped grid gives the symbol of the text |
| Symbol.IsDark | src/qrgen.ts:59 | `isDark(r, c)` throws iff row r is outside the matrix, and is otherwise true iff c is a column and the module is dark |
| Symbol.CreateQRCode | src/qrgen.ts:24-60 | `createQRCode` returns count 25 and a 25 x 25 matrix equal to the symbol of the text, and `isDark` answers accordingly |
| SeedData.Mix | src/data.ts:41-42 | one hash step yields the int32 of 33h + c |
| SeedData.Hash | src/data.ts:39-43 | the hash loop keeps h an int32 |
| SeedData.ScaleCongruent | src/data.ts:41-42 | a hash step respects congruence modulo 2^32 |
| SeedData.HashIsWrappedPoly | src/data.ts:39-43 | wrapping after every step equals wrapping the unbounded djb2 polynomial once |
| SeedData.HashValue | src/data.ts:44 | `Math.abs(h)` lies in 0..2^31 |
| SeedData.HashString | src/data.ts:38-45 | `hashString` returns the hash value, in 0..2^31, and 5381 for the empty string |
| SeedData.TeacherIndex | src/data.ts:64 | the teacher index is a valid index of `TEACHERS` |
| SeedData.Teacher | src/data.ts:64 | the chosen teacher is one of `TEACHERS` |
| SeedData.Going | src/data.ts:65 | the filter keeps exactly the friends whose hash test passes |
| SeedData.GoingAppend | src/data.ts:65 | the filter keeps list order |
| SeedData.Chosen | src/data.ts:65 | the chosen friends are the first min(3, going) friends that pass the test, in list order |
| SeedData.ChosenIdsFriends | src/data.ts:65-75 | `friendIds` holds at most three ids, each of a friend in `FRIENDS` who passes the hash test, and leaves out no such friend when it holds fewer than three |
| SeedData.PrefixIds | src/data.ts:65-75 | the ids of a prefix of the filtered friends are ids of friends who pass, and all of them when fewer than three |
| SeedData.Kept | src/data.ts:110-111 | `filter(Boolean)` keeps only non-empty strings |
| SeedData.ClassNamesEmpty | src/data.ts:110-112 | `classNames` is empty iff no argument is truthy |
| SeedData.KeptEmpty | src/data.ts:111 | nothing is kept iff no argument is truthy |
| SeedData.JoinEmpty | src/data.ts:111 | joining non-empty parts is empty iff there are no parts |
| SeedData.Join | src/data.ts:111 | `join(" ")` is the join of all but the last part, one space, then the last part; it starts with the first part, ends with the last, and is empty for no parts |
| SeedData.ClassNames | src/data.ts:110-112 | `classNames` is empty without truthy classes and otherwise starts with the first truthy class, ends with the last and has one space between neighbours |
| SeedData.ClassNamesAppend | src/data.ts:110-112 | a further truthy argument is appended after one space (alone if nothing came before); a falsy one changes nothing |
| Scan.TicketPrefix | src/Scan.tsx:47 | the payload prefix is 18 code units long |
| Scan.TicketPayload | src/Ticket.tsx:33 | a ticket payload is the prefix followed by the booking id unchanged |
| Scan.IsTicketPayload | src/Scan.tsx:47 | the prefix test accepts exactly the ticket payloads of some id |
| Scan.LastSegment | src/Scan.tsx:48 | `split(":").pop()` is the suffix after the last colon: colon-free, preceded by a colon when shorter than the input |
| Scan.TicketPayloadAccepted | src/Scan.tsx:47 | every ticket payload `openhouse:booking:${id}` passes the prefix test |
| Scan.ExtractId | src/Scan.tsx:47-49 | reading a ticket payload gives back its booking id iff the id has no colon; otherwise a shorter id comes back |
| Scan.SegmentOfSuffix | src/Scan.tsx:48 | after a colon, the last segment depends only on what follows |
| Scan.TicketsCollide | src/Ticket.tsx:33 | two booking ids of one length that share their first three units get the same ticket symbol |
| Scan.TicketFinderCorrupted | src/Ticket.tsx:33 | on every ticket the light top-right finder module (1, 23) comes out dark |
| Scan.FindIndex | src/Scan.tsx:70 | `findIndex` returns the first booking with the id, or -1 iff there is none |
| Scan.Mark | src/Scan.tsx:68-82 | marking keeps the number of stored bookings |
| Scan.MarkUnknown | src/Scan.tsx:79-81 | an unknown id leaves the list unchanged and reports not_found |
| Scan.MarkFirst | src/Scan.tsx:70-75 | a found unattended booking gets `attendedAt = now`, every other entry stays, and the status is marked |
| Scan.MarkAlready | src/Scan.tsx:70-78 | a found booking that already has an attendance time leaves the list unchanged and reports already_marked |
| Scan.MarkTwice | src/Scan.tsx:72-78 | marking is idempotent: a second scan changes nothing and reports already_marked |
| Scan.Scanner.constructor | src/Scan.tsx:9-10 | the scanner starts idle with the stored bookings and no code read |
| Scan.Scanner.MarkAttended | src/Scan.tsx:68-82 | `markAttended` leaves the stored list and the status as `Mark` says |
| Scan.Scanner.Detected | src/Scan.tsx:45-50 | a detected code becomes the last code; a ticket payload is marked with the id after its last colon; any other code changes nothing else |
| Planner.HashString | src/MobilePlanner.tsx:48-55 | the planner's copy of `hashString` returns the same value as the seed data's |
| Planner.IsBooked | src/MobilePlanner.tsx:254 | `!!booked[id]` is false for a missing id and the stored flag otherwise |
| Planner.ToggleBook | src/MobilePlanner.tsx:199-202 | a sold-out session leaves `booked` unchanged; otherwise the session's booked state flips and no other key changes |
| Planner.ToggleTwice | src/MobilePlanner.tsx:199-202 | toggling the same session twice restores every booked state |
| Planner.Selected | src/MobilePlanner.tsx:197 | the selected ids are keys of `booked`, exactly the booked ones |
| Planner.SelectedCount | src/MobilePlanner.tsx:197 | counting the true values one entry at a time gives the number of booked sessions |
| Planner.ToggleCount | src/MobilePlanner.tsx:197-202 | a toggle raises the count by one when it books, lowers it by one when it unbooks, and a sold-out session leaves it |
| Planner.BadgeFor | src/MobilePlanner.tsx:254-283 | the badge is sold out iff no slot is left, warn iff 1 to 3 slots are left and the user has not booked, open otherwise |
| Planner.BookDisabled | src/MobilePlanner.tsx:316 | the button is disabled exactly when a toggle would leave `booked` unchanged |
| Planner.DisabledIsSoldOut | src/MobilePlanner.tsx:316 | the book button is disabled iff the badge says sold out, and a disabled session cannot be toggled |
| Planner.BookingClearsWarning | src/MobilePlanner.tsx:199-256 | booking a session with few slots turns its warning into open |

## Left out

- Error-correction codewords, format and version information, timing patterns and masking: the encoder has none of them.
- `QRErrorCorrectLevel` and the arguments of `getRSBlocks`: the block is fixed and the arguments are ignored by the code.
- Polynomial.Multiply: the contract states when it throws and the shape of the product, not the coefficient values. The values come from the log table, which is not a GF(256) table (see above).
- Polynomial.Mod: recursion is bounded by a fuel argument, and running out of fuel is a separate result. The contract does not state the remainder's coefficients.
- Js.Or: `|=` is modelled on non-negative values only. The buffer only ever or-s a byte with a single-bit mask.
- Non-integer and NaN indices for `get`, `getAt`, `isDark` and the arrays: the model takes integers.
- The QR rendering component (`src/qr.tsx`) and the ticket page's layout are not part of this model. Only the payload string of `src/Ticket.tsx` is modelled.
- Camera access, the `BarcodeDetector` loop and animation frames: `Scan.Scanner.Detected` takes the decoded string as input. The camera_error status exists in `Scan.Status` but its I/O path is not modelled.
- `localStorage` and JSON: the stored bookings are a field of the scanner.
- `new Date().toISOString()`: the time is a parameter of `MarkAttended`.
- `seedWeek` dates, the session list, `timeLabel`, `dayTitle` and the `localeCompare` sort of sessions: date and locale handling.
- Rendering: React state, routing, JSX, icons, friend emoji and the "slot"/"slots" label.
