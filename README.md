# SEC-DED encoder model

A Dafny model of the SEC-DED (extended Hamming) encoder of the
SysVerilog SEC-DED circuit visualizer. The program asks for a message
width `m`, computes the number of check bits `r` (the smallest `r` with
`2^r >= m + r + 1`), and emits a SystemVerilog module `pow2_detect` whose
`always_comb` body encodes an `m`-bit message `in_bits` into an
`(m + r + 1)`-bit word `xor_pow2_bits`:

1. the layout walk fills codeword positions `1..n` (`n = m + r`, position
   `p` stored in `out_bits[p-1]`): powers of two get 0, the other positions,
   in ascending order, get `in_bits[m-1], in_bits[m-2], ...` from a
   decreasing cursor;
2. the parity loop writes, for each `i < r`, the XOR of every position `j`
   with `(j & 2^i) != 0 && j != 2^i - 1` into position `2^i`;
3. the output pass builds `r_out_bits[n - i] = out_bits[i]` and
   `r_out_bits[0] = XOR of out_bits`.

The model keeps the program's form: `ComputeCheckBits` is the counting
`while` loop; the encoder body is three methods over an `array<bool>`
(`LayoutWalk`, `ParityLoop`, `OutputPass`), each proved against a
specification function (`Layout`, `Codeword`, `Extended`), and `Encode`
runs them in order. The bitwise tests `i & (i - 1)` and `j & idx_bit` are
modelled by a bit-by-bit `And` on naturals and proved equal to "is a power
of two" and "bit `i` of `j` is set". Integers are unbounded and `2^i` is a
mathematical power.

Files:

- `bits.dfy` (module `Bits`): `Pow2`, `IsPowerOfTwo`, `Log2`, `Bit`, `And`, `BitsValue` and their lemmas.
- `check_bits.dfy` (module `CheckBits`): the width test, the check-bit search, and counts of parity and data positions.
- `encoder.dfy` (module `Encoder`): the specification functions and the three passes of the encoder body.
- `sec_ded.dfy` (module `SecDed`): where the message bits land, parity of each group, and what one or two flipped bits do to a reference syndrome — the guarantees the encoding gives.

Word orientation: the result sequence of `Encode` is indexed like the
hardware vector `r_out_bits`, so index 0 is its least significant bit (the
overall parity) and index `n` holds codeword position 1. This follows the
code at `Encode_SEC-DED/convert_sv.mjs:94-98`. Reading the vector from
its most significant end gives codeword positions 1..n in ascending order,
then the overall parity as the last bit.

The exclusion `j != idx_bit - 1` in the parity loop is kept exactly as
written. It is proved to exclude nothing (`Bits.ExclusionIsVacuous`).
Including position `2^i` itself in group `i` is harmless, because that
position still holds its placeholder 0 when group `i` is summed. So the
code is not wrong here, and there is no finding.

## Model

| member | source | states |
|---|---|---|
| `CheckBits.ValidateWidth` | Encode_SEC-DED/convert_sv.mjs:19-24 | a parsed width is accepted exactly when it is an integer greater than 0; otherwise `InvalidWidthError` is returned; an accepted width is returned unchanged |
| `CheckBits.ComputeCheckBits` | Encode_SEC-DED/convert_sv.mjs:33-37 | the search terminates with `2^r >= m + r + 1`, and every smaller `k` has `2^k < m + k + 1`, so `r` is the minimum; also `r <= m + 1` |
| `Bits.Pow2AtLeastDouble` | Encode_SEC-DED/convert_sv.mjs:35 | `2^(k+1) >= 2(k+1)`: why the search ends by `r = m + 1` |
| `CheckBits.CheckBitCountIsSmallest` | Encode_SEC-DED/convert_sv.mjs:34-35 | if `2^(r-1) < m + r` holds for the last step, then every `k < r` fails the test, so `r` is minimal |
| `CheckBits.CheckBitCountUnique` | Encode_SEC-DED/convert_sv.mjs:33-37 | each width has exactly one check-bit count |
| `CheckBits.CheckBitsWithinShiftRange` | Encode_SEC-DED/convert_sv.mjs:35 | the check-bit count is at most 30, the range where `1 << r` equals `2^r`, exactly when `m <= 2^30 - 31` |
| `CheckBits.CheckBitsExamples` | Encode_SEC-DED/convert_sv.mjs:33-37 | widths 1, 4 and 8 get 2, 3 and 4 check bits |
| `Bits.PowerOfTwoTest` | Encode_SEC-DED/convert_sv.mjs:71 | the test `(p & (p-1)) == 0` for `p >= 1` holds exactly when `p` is a power of two |
| `Bits.AndPow2` | Encode_SEC-DED/convert_sv.mjs:84 | `(j & 2^i) != 0` holds exactly when bit `i` of `j` is set |
| `Bits.ExclusionIsVacuous` | Encode_SEC-DED/convert_sv.mjs:84 | every `j` with `(j & 2^i) != 0` differs from `2^i - 1`, so the second test never removes anything from a group |
| `CheckBits.PositionCounts` | Encode_SEC-DED/convert_sv.mjs:70-76 | with the minimal `r`, exactly `r` of positions `1..m+r` are powers of two and exactly `m` are data positions |
| `CheckBits.CursorInRange` | Encode_SEC-DED/convert_sv.mjs:73-75 | at every data position the cursor `m - 1 - (data positions before it)` is a valid index, so no read is out of range and the guard `input_idx < WIDTH` always holds |
| `CheckBits.ParityPositionInRange` | Encode_SEC-DED/convert_sv.mjs:81-88 | for every `i < r`, parity position `2^i` lies inside the codeword, so the write `out_bits[idx_bit - 1]` is in range |
| `Encoder.LayoutAt` | Encode_SEC-DED/convert_sv.mjs:69-77 | after the layout walk a power-of-two position holds 0, and a data position with `k` data positions before it holds `in_bits[m-1-k]` |
| `Encoder.LayoutWalk` | Encode_SEC-DED/convert_sv.mjs:68-77 | the walk leaves `out_bits` equal to `Layout`, and the cursor ends at -1: exactly `m` message bits are consumed |
| `SecDed.LayoutPlacesEveryBit` | Encode_SEC-DED/convert_sv.mjs:68-76 | every message bit `in_bits[m-1-k]` is placed at some data position of rank `k` |
| `SecDed.LayoutIsMostSignificantFirst` | Encode_SEC-DED/convert_sv.mjs:70-76 | of two data positions, the earlier one holds the more significant message bit |
| `SecDed.LayoutParityPositionsZero` | Encode_SEC-DED/convert_sv.mjs:71-72 | before the parity loop every parity position `2^i`, `i < r`, holds 0 |
| `Encoder.ParityStep` | Encode_SEC-DED/convert_sv.mjs:80-89 | one round of the parity loop sums group `i` of the layout unchanged by earlier rounds, and keeps the loop invariant |
| `Encoder.ParityLoop` | Encode_SEC-DED/convert_sv.mjs:80-89 | the loop turns `Layout` into `Codeword` and changes no data position |
| `SecDed.GroupEvenParity` | Encode_SEC-DED/convert_sv.mjs:80-89 | for every `i < r`, the XOR over all positions with bit `i` set is 0 |
| `SecDed.CodewordIsHamming` | Encode_SEC-DED/convert_sv.mjs:80-89 | the finished codeword has every parity group even, and its length is below `2^r` |
| `SecDed.CleanSyndrome` | Encode_SEC-DED/convert_sv.mjs:80-89 | an intact codeword has syndrome 0 |
| `SecDed.SingleFlipSyndrome` | Encode_SEC-DED/convert_sv.mjs:80-89 | flipping any one position `p` in `1..n` makes the group-XOR syndrome equal `p` |
| `SecDed.DoubleFlipSyndrome` | Encode_SEC-DED/convert_sv.mjs:80-89 | flipping two different positions leaves a nonzero syndrome |
| `Encoder.OutputPass` | Encode_SEC-DED/convert_sv.mjs:91-98 | the word has length `n + 1`; `word[n - i] = out_bits[i]`; `word[0]` is the XOR of `out_bits`; the word equals `Extended`, and the XOR of all its bits is 0 |
| `Encoder.ExtendedParityIsZero` | Encode_SEC-DED/convert_sv.mjs:91-98 | the overall parity bit makes the XOR of all `n + 1` output bits 0 |
| `SecDed.CodewordOfExtended` | Encode_SEC-DED/convert_sv.mjs:94-97 | reversing the output word minus its parity bit gives back the codeword |
| `SecDed.SingleErrorCorrected` | Encode_SEC-DED/convert_sv.mjs:91-98 | flipping one bit of the output word turns its overall parity odd; the syndrome then names the flipped codeword position, or is 0 if the flipped bit was the parity bit |
| `SecDed.DoubleErrorDetected` | Encode_SEC-DED/convert_sv.mjs:91-98 | flipping two bits of the output word keeps the overall parity even and leaves a nonzero syndrome |
| `Encoder.Encode` | Encode_SEC-DED/convert_sv.mjs:67-100 | for a valid width, the encoder returns the minimal `r` and the word `Extended(Codeword(in_bits, r))`, of length `m + r + 1` |
| `SecDed.EncodedIsSecDed` | Encode_SEC-DED/convert_sv.mjs:67-100 | the encoder's output has even overall parity and syndrome 0; one flipped bit is located; two flipped bits are detected |

## Left out

- The interactive prompt and its retry loop (`readline`, lines 13-29): this is console I/O. Only the acceptance test of line 20 is modelled, as `ValidateWidth` over the value `parseInt` returns: NaN, Infinity or an integer, where NaN and Infinity both fail `Number.isInteger` and are represented together by `NotANumber`. How `parseInt` parses the text is not modelled.
- The SystemVerilog text itself (lines 43-104): the model covers the algorithm the template describes, not the string interpolation of `${width}` and `${checkBits}`.
- `process_sv` synthesis and the `circuit.json` write (lines 114-117): a foreign library plus file I/O.
- `Encode_SEC-DED/main.js`: fetching and rendering the circuit in the browser.
- SystemVerilog four-state logic (X/Z), `always_comb` timing and the declared vector widths: bits are `bool` and indices are unbounded integers.
- ComputeCheckBits: `1 << r` in JavaScript is a 32-bit shift: `1 << 31` is -2^31 and the shift count wraps from 32 on, so `1 << r` never exceeds 2^30. The model uses the mathematical power `2^r`. The two agree while `r <= 30`, that is for `m <= 2^30 - 31` (`CheckBits.CheckBitsWithinShiftRange`); for larger widths the source's loop never terminates, which the model does not capture.
- ComputeCheckBits: the width is a `nat`. The program only calls it after the width test has passed.
- Decoding: the source does not decode. `Syndrome` and `CodewordOf` in `SecDed` are a reference reading of a received word. They exist only to state what the encoding guarantees.
