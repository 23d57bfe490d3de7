# Private auction: bid codec and off-chain winner selection

This project models, in Dafny, the only computational part of the private
auction: the bid codec and the winner selection that runs off the chain. The
codec turns an amount into a 32-byte "encrypted" payload and reads it back.
The winner selection decodes every submitted bid and picks the highest,
breaking ties in favour of the earliest bidder. Both appear twice, once in the
browser front end (`frontend/src/App.tsx`) and once in the demo script
(`scripts/demoAuction.ts`). Both copies are modelled, and the model proves
that they agree.

Modules:

- `Wrappers`: `Option` and `Result`.
- `Bytes`: bytes, 2^64, and big-endian writing (`BeBytes`) and reading
  (`BeValue`) of unsigned integers.
- `Hex`:
  - the one-prefix `"0x"` strip;
  - the `/.{1,2}/g` chunking followed by `parseInt(chunk, 16)`, with a
    one-digit last chunk for odd lengths and a null match on empty text;
  - the `"0x"`-prefixed lower-case hex form in which a `bytes` value comes
    back from the contract.
- `JsBuffers`: the JavaScript buffer operations the codec relies on:
  - zero-filled `ArrayBuffer`s;
  - the clamping `slice`;
  - `DataView.setBigUint64`, which reduces the value modulo 2^64 and writes it
    big-endian, as a function on sequences and as an in-place method on an
    array;
  - `DataView.getBigUint64`, which throws a `RangeError` when the 8 bytes are
    not all inside the buffer.

  The two JavaScript exceptions are `TypeError` and `RangeError`.
- `Tally`: the reference definition of the result, independent of either
  loop. `Highest` is the largest amount, or -1 when there is none.
  `WinnerIndex` is the first position holding that amount.
- `Frontend`: `encodeBid` and `decodeBid` of the front end as functions, and
  the loop of `fetchAndDecode` as a method building the table rows and the
  winner.
- `Demo`: `encodeBid` as a method filling a fresh zeroed array in place, and
  `decodeBid` as a method that reassigns its argument as the script does.
  `SelectWinner` is the decode-and-select loop of `main`, and `RunAuction` is
  `main` itself.

The contract calls (`getBidders`, `getEncryptedBid`) are replaced by their
results. The input is the bidder list, in the order the contract returns it,
with each bidder paired with the hex string returned for it.

## Model

| member | source | states |
|---|---|---|
| Bytes.BeBytes | frontend/src/App.tsx:26 | The big-endian form written by `setBigUint64` has exactly the requested number of bytes |
| Bytes.BeValue | frontend/src/App.tsx:37 | The big-endian value read by `getBigUint64` from n bytes is below 256^n |
| Bytes.BeValueOfBeBytes | frontend/src/App.tsx:23-38 | Reading back, big-endian, the n bytes written big-endian gives the value back whenever it is below 256^n |
| Bytes.BeBytesAt | frontend/src/App.tsx:26 | Byte i of the n-byte big-endian form of v is digit n-1-i of v in base 256 |
| Bytes.BeBytesOrder | frontend/src/App.tsx:26 | For a < b < 256^n, the n-byte big-endian form of a comes before that of b byte by byte (lexicographic order) |
| Hex.DigitValue | frontend/src/App.tsx:33 | A hex digit, in either case, is read as a value below 16 |
| Hex.ChunkValueDigits | frontend/src/App.tsx:32-33 | `parseInt(chunk, 16)` of a two-digit chunk has the first digit as its high hex digit and the second as its low one; a lone last digit gives its own value, below 16 |
| Hex.StripPrefix | frontend/src/App.tsx:31 | Exactly one leading "0x" is removed when present, and the text is left alone otherwise |
| Hex.ParseChunks | frontend/src/App.tsx:32-34 | The chunk parse gives one byte per chunk of at most two digits, so half the digits rounded up |
| Hex.ParseChunksPairs | frontend/src/App.tsx:32-34 | In order, each full pair of digits becomes one byte with the high digit first, and an odd last digit becomes a byte on its own |
| Hex.ParseHex | frontend/src/App.tsx:32-34 | The match-and-parse step fails (null match) exactly on empty text, and otherwise gives (digits + 1) / 2 bytes |
| Hex.ParseChunksToHex | frontend/src/App.tsx:32-34 | Parsing the two-digits-per-byte hex form of any byte string gives that byte string back |
| Hex.ParseHexWireHex | frontend/src/App.tsx:31-34 | Stripping and parsing the "0x" form of a non-empty byte string gives the byte string |
| JsBuffers.Zeros | frontend/src/App.tsx:24 | `new ArrayBuffer(n)` holds n bytes, all zero |
| JsBuffers.Slice | frontend/src/App.tsx:35 | `slice(start, end)` is the sub-range when it fits, the tail when end passes the length, and empty when start does |
| JsBuffers.SetBigUint64 | frontend/src/App.tsx:26 | The 8 bytes at the offset become the value modulo 2^64, big-endian, and every other byte is unchanged |
| JsBuffers.SetBigUint64At | scripts/demoAuction.ts:8 | The in-place write leaves the array equal to SetBigUint64 of its old contents |
| JsBuffers.GetBigUint64 | frontend/src/App.tsx:37 | The read succeeds exactly when offset + 8 fits in the buffer, and otherwise throws RangeError; the value is below 2^64 |
| Tally.Highest | frontend/src/App.tsx:151-163 | The result is -1 exactly for no amounts; otherwise it is one of the amounts and no amount exceeds it |
| Tally.WinnerIndex | frontend/src/App.tsx:159-162 | The winner's position holds the highest amount, and every earlier position holds strictly less |
| Tally.HighestSnoc | frontend/src/App.tsx:159-161 | One more amount replaces the running highest exactly when it is strictly larger |
| Tally.WinnerIndexSnoc | frontend/src/App.tsx:159-162 | One more amount moves the winner to the new position exactly when it is strictly larger than the highest so far; an equal amount does not |
| Tally.WinnerIndexCharacterised | frontend/src/App.tsx:159-162 | Position k wins if and only if no amount exceeds it and no earlier amount reaches it (first-seen tie-break) |
| Tally.TieGoesToFirst | frontend/src/App.tsx:159-162 | Amounts 100, 250, 250 are won by the second position with 250, not the third |
| Tally.DemoScenario | scripts/demoAuction.ts:41-43 | Amounts 100, 250, 180 are won by the second position with 250 |
| Frontend.EncodeBid | frontend/src/App.tsx:23-28 | The payload is 32 bytes, bytes 0..23 are zero, and bytes 24..31 are the amount modulo 2^64 in big-endian order |
| Frontend.EncodeBidWraps | frontend/src/App.tsx:26 | Amounts that agree modulo 2^64 encode to the same payload |
| Frontend.EncodeBidOrder | frontend/src/App.tsx:23-28 | For amounts 0 <= a < b < 2^64, the payload of a comes before the payload of b byte by byte |
| Frontend.EncodeBidBigEndian | frontend/src/App.tsx:26 | For an amount below 2^64, byte 24+i of the payload is (amount / 256^(7-i)) % 256 |
| Frontend.ReadSlot | frontend/src/App.tsx:35-37 | The slot read succeeds exactly on at least 32 bytes, otherwise throws RangeError, and gives a value below 2^64 |
| Frontend.ReadSlotByDataView | frontend/src/App.tsx:35-37 | Slicing bytes 24..32 and reading a big-endian 64-bit value at offset 0 is exactly the slot read, including the RangeError for short input |
| Frontend.DecodeBid | frontend/src/App.tsx:30-38 | decodeBid succeeds exactly when at least 63 hex digits follow the optional "0x" (32 chunks), and the amount is below 2^64 |
| Frontend.DecodeBidErrors | frontend/src/App.tsx:31-37 | Empty text after the prefix throws TypeError (null match), and 1 to 62 digits throw RangeError (read past the 8-byte slice) |
| Frontend.DecodeBidValue | frontend/src/App.tsx:30-38 | On success the amount is the big-endian value of parsed bytes 24..31 |
| Frontend.DecodeBidIgnoresPadding | frontend/src/App.tsx:35-37 | Two inputs whose digits 48..63 agree decode alike, whatever bytes 0..23 and anything past byte 31 hold |
| Frontend.RoundTrip | frontend/src/App.tsx:23-38 | Decoding the "0x" hex form of encodeBid(x) gives x modulo 2^64, so x itself for 0 <= x < 2^64 |
| Frontend.Outcomes | frontend/src/App.tsx:154-156 | One decode outcome per bidder, in bidder order, each equal to decodeBid of that bidder's hex |
| Frontend.Collect | frontend/src/App.tsx:154-163 | A pass that does not throw yields exactly one value per step |
| Frontend.CollectOk | frontend/src/App.tsx:154-163 | The first n steps succeed if and only if none of them throws, and then step i yields value i |
| Frontend.CollectErr | frontend/src/App.tsx:154-156 | A failed pass fails with the exception of a step that every earlier step survived |
| Frontend.CollectSnoc | frontend/src/App.tsx:154-157 | One more step that does not throw appends its value to the values so far |
| Frontend.CollectErrorStays | frontend/src/App.tsx:154-156 | Once a step has thrown, later steps leave the outcome unchanged (the throw aborts the loop) |
| Frontend.DecodeAll | frontend/src/App.tsx:154-163 | A successful pass over the list yields one amount per bidder |
| Frontend.DecodeAllSpec | frontend/src/App.tsx:154-163 | The pass succeeds if and only if every bid decodes, then yields each bidder's amount in order; otherwise it fails with the first failing bid's exception |
| Frontend.DecodeAllEncoded | frontend/src/App.tsx:154-156 | Bids that went through encodeBid and came back as "0x" hex decode, as a list, to exactly the submitted amounts |
| Frontend.FetchAndDecode | frontend/src/App.tsx:148-170 | The fetch aborts exactly when some bid fails to decode, with that bid's exception. Otherwise there is one row per bidder in order, holding its decoded amount. The winner is null exactly for an empty list, and is otherwise the first bidder holding the highest amount, with that amount |
| Demo.EncodeBid | scripts/demoAuction.ts:4-10 | A fresh array whose contents are byte for byte the front end's encodeBid of the same amount |
| Demo.DecodeBid | scripts/demoAuction.ts:13-24 | For every input whose text after the prefix is hex, the script's decodeBid returns or throws exactly what the front end's decodeBid does |
| Demo.SelectWinner | scripts/demoAuction.ts:66-81 | main's loop aborts exactly when some bid fails to decode, with that exception. Otherwise highestBid is the largest amount (-1 for no bidders), and winner is null exactly for no bidders and is otherwise the first bidder holding that amount |
| Demo.PlaceAndSelect | scripts/demoAuction.ts:41-81 | Three bidders submit encodeBid of their amounts in order and the loop reads them back. The winner is the first bidder with the largest amount modulo 2^64, and that amount is the highest bid |
| Demo.RunAuction | scripts/demoAuction.ts:41-81 | With main's own amounts 100, 250 and 180, the result is bidder 2 with 250 |

## Left out

- The React UI is not modelled: component state, effects, rendering and
  status messages. In `fetchAndDecode` the model returns the rows and the
  winner instead of passing them to `setBiddersView` and `setWinner`, and
  returns the exception instead of the catch block's status message.
- Network and wallet calls are not modelled: providers, signers, contract
  calls, transactions and deployment. Their results are parameters: the bidder
  list and the hex string for each bidder. `scripts/deployLocal.ts` is not part
  of this model.
- The on-chain `PrivateAuction` ledger is not modelled: its phases, one bid
  per bidder and owner-only close. Its source is not part of this model. The
  demo's `RunAuction` assumes that the contract returns the bidders in
  submission order, each with the bytes it stored.
- `BigInt(bidInput)` parsing of the input field and console logging are not
  modelled.
- The decimal `toString` of amounts in the table rows and the winner is not
  modelled. Rows and the winner hold the amount as a number.
- `Frontend.DecodeBid`, `Demo.DecodeBid`: inputs containing characters that
  are not hex digits are excluded by the precondition. On such a chunk
  `parseInt` skips leading whitespace and a sign and reads the leading hex
  digits. It gives NaN when there are none, which `Uint8Array.from` stores as
  0, and a negative value after `-`, which it stores modulo 256 (`"-f"`
  becomes 241). The regular expression never puts a line terminator into a
  chunk, so a line terminator changes the pairing of the digits after it
  (`"a\nbc"` parses to 10, 188). Odd lengths are modelled: the last chunk is
  a single digit.
- `Frontend.FetchAndDecode`, `Demo.SelectWinner`: both loops throw on the
  first bid that fails to decode and abort the whole pass. No malformed entry
  is skipped and counted. decodeBid does not insist on exactly 32 bytes: it
  accepts longer input and ignores everything after byte 31.
- `Frontend.EncodeBid`: amounts outside [0, 2^64) are not excluded. The model
  reduces them modulo 2^64 as `setBigUint64` does. The round trip is stated
  for all amounts, modulo 2^64.
- `Hex.ToHex` / `Hex.WireHex`: the lower-case `"0x"` form in which a `bytes`
  value comes back from the contract is an assumption about the library that
  returns it. Its code is not part of this model.
