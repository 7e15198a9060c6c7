# romdiff: a verified model of the ROM delta codec

`src/tools/romdiff.c` compares a reference ROM image with a new one of the
same size and writes a token stream (a "diff") that is meant to rebuild the
new image from the reference. Its encoder works in three parts:

- A **match scanner** finds, for each target offset, the longest exact run
  against every reference offset. Runs are capped at 64 bytes, and the lowest
  address wins a tie.
- A **backward dynamic programme** fills four tables: `costs`, `next_pos`,
  `tokens` and `token_lens`. It starts at the last offset and seeds each
  offset with a two-byte XOR literal. It then lowers the cost with
  approximate matches (a header, a difference bitmap and XOR patch bytes)
  and with exact matches (a three-byte header).
- A **stream assembler** follows `next_pos` from offset 0 and appends each
  offset's token to `diff`.

The **decoder** `decode_diff` replays a stream into an output buffer: it
copies from the reference and XOR-patches through the bitmap.

The model keeps the program's imperative form:

- `EncoderTables.Tables` is a class that owns the four tables as arrays. Its
  methods are the reset loop, the backward pass, the scan and extension
  loops, and the assembler. Each method is proved against specification
  functions in `Encoder`, on the values of the tables.
- `Decoder.DecodeDiff` writes into an output array. It is proved against
  the functional decoder `Decoder.Decode`.
- `Format` holds the header packing that the two halves share.
- `Chain` holds the walk along the transitions.
- `Pairing` states where the encoder and the decoder disagree on the format.

The image size `FILE_SIZE` is the length `n` of the images.

## Where the model follows the code over the format description

- **Literal tokens.** The tags 0x00 and 0x01 are skipped with their
  payload unread, so the payload byte is decoded as the next tag.
- **Approximate tags.** The approximate tag carries the exact run length
  `mlen` and the current best address. It does not carry the extension
  length `k` or the candidate's own offset `j`.
- **Approximate size estimate.** It adds one byte per mismatch and one
  byte for every position `k` with `k & 7 == 1`. It does not add
  `ceil(k/8)`. It counts the mismatch at position `k` itself, which is one
  past the `k` bytes the token covers (line 171 runs before the token for
  extension `k` is priced).
- **The bitmap compares other bytes than the estimate.** The estimate
  compares `new[i+k]` with `ref[j+k]` (line 171). The bitmap loop compares
  `ref[i+l]` with `new[j+l]` (line 195), with the image roles swapped. Its
  patch byte is `ref[i+l] ^ new[i+l]` (line 200), at offset `i` in both
  images. So the estimate can be larger or smaller than the token it
  prices; `Encoder.EstimateIsNotTokenLength` gives one input of each kind.
- **End of stream.**
  - The decoder returns 0 as soon as `FILE_SIZE` bytes are written, even
    if stream bytes remain.
  - It returns -1 only if the stream runs out at another count.
  - A token that writes past `FILE_SIZE`, but stays inside `out`, is not
    detected as an error. If it is the last token of the stream, the loop
    ends with `out_ofs != FILE_SIZE` and the decoder returns -1. If stream
    bytes remain, the next loop test sees `out_ofs >= FILE_SIZE` and the
    decoder returns 0.
- **The sentinel `costs[N]`.** The exact-match comparison reads
  `costs[i + len]` at `i + len == FILE_SIZE`, one past the array. The model
  reads this as a sentinel 0, which is also the value the assignment on
  line 213 implies.

## Model

| member | source | states |
|---|---|---|
| Bytes.ToByte | src/tools/romdiff.c:183-185 | storing an `int` into an `unsigned char` keeps it modulo 256, and keeps a value in 0..255 unchanged |
| Bytes.BitmapLen | src/tools/romdiff.c:53-54 | `len = count >> 3; if (count & 7) len++` is ceil(count/8) for a non-negative count, and 0 for -1 |
| Bytes.PackByteBit | src/tools/romdiff.c:194-197 | bit `t` of the bitmap byte `b` that `PackByte` builds is set iff position `8b+t` is marked |
| Format.ExactHeader | src/tools/romdiff.c:216-218 | the exact header is three bytes; bytes 1 and 2 are the address's low and middle bytes |
| Format.ApproxHeader | src/tools/romdiff.c:183-185 | the approximate header is three bytes; bytes 1 and 2 are the address's low and middle bytes |
| Format.ExactCount | src/tools/romdiff.c:39 | for an exact tag 0x02..0x7F the count `(tag-2)>>1` is 0..62; below 0x02 it would be -1 |
| Format.ApproxCount | src/tools/romdiff.c:51 | the count `((tag&0x7f)-2)>>1` is between -1 and 62 |
| Format.ApproxCountNegative | src/tools/romdiff.c:51 | the count is -1 exactly for the tags whose low seven bits are below 2 |
| Format.HeaderAddress | src/tools/romdiff.c:40-43 | the decoded address is below 0x20000 (17 bits) |
| Format.HeaderAddressFields | src/tools/romdiff.c:40-43 | bits 0..7 of the address are the first byte after the tag, bits 8..15 the second, and bit 16 the tag's low bit |
| Format.ExactHeaderDecodes | src/tools/romdiff.c:216-218 | for lengths 1..63, the exact tag lies in 0x02..0x7F; the decoder recovers the 17-bit address but gets count `len-1` |
| Format.ExactHeaderOfLength64 | src/tools/romdiff.c:216-218 | a 64-byte exact run gets a tag of 0x80 or higher, which the decoder reads as approximate with count -1 |
| Format.ApproxHeaderDecodes | src/tools/romdiff.c:183-185 | the approximate tag lies in 0x80..0xFD, keeps the address, and decodes to count `mlen-2` |
| Chain.RecurrenceIsSumAlong | src/tools/romdiff.c:213-214 | a table with `cost[q] = w[q] + cost[next[q]]` and `cost[n] = 0` holds at every offset the total weight of the walk from it |
| Chain.SumAlongBound | src/tools/romdiff.c:227-243 | weights of at most `c` per offset advanced sum to at most `c` per remaining offset |
| Chain.ProgressStep | src/tools/romdiff.c:238-242 | one step of the walk extends the collected prefix, total and step count consistently |
| Encoder.Run | src/tools/romdiff.c:152-158 | the run at `(i, j)` is at most 64 bytes and stays inside both images |
| Encoder.RunIsLongestPrefix | src/tools/romdiff.c:152-158 | the run is a common prefix of `new[i..]` and `ref[j..]`, and it stops only at 64 bytes, at the end of an image, or at a differing byte |
| Encoder.MatchLength | src/tools/romdiff.c:152-158 | the inner while loop computes the common-prefix length capped at 64 |
| Encoder.ScanStep | src/tools/romdiff.c:159-164 | only a strictly longer run replaces the best; a 64-byte run ends the scan with the final result; the offset examined was reached, and the best address is then the lowest one with the longest run so far |
| Encoder.ScanResultLeads | src/tools/romdiff.c:149-165 | at the end of the scan, a non-empty best run starts at the lowest reference offset with the longest run, and its length is that run |
| Encoder.ScanMatches | src/tools/romdiff.c:149-165 | the best run found matches byte for byte and stays inside both images |
| Encoder.LowestLongestUnique | src/tools/romdiff.c:159-161 | only one reference offset is the lowest with the longest run, so `best_addr` is determined |
| Encoder.ApproxEstimate | src/tools/romdiff.c:168-175 | the estimate is at least the three header bytes and grows by at most two bytes per extension |
| Encoder.ApproxEstimateCounts | src/tools/romdiff.c:168-175 | `enc_len` after extension `k` is 3, plus the mismatches `new[i+t] != ref[j+t]` for `t` in `mlen..k`, plus the positions `t` in `mlen..k` with `t & 7 == 1` |
| Encoder.EstimateIsNotTokenLength | src/tools/romdiff.c:168-200 | on concrete images the estimate is 5 for a 4-byte token, and 4 for a 6-byte token |
| Encoder.MarkFlags | src/tools/romdiff.c:195 | position `l` is marked exactly when `ref[i+l] != new[j+l]` |
| Encoder.PatchBytes | src/tools/romdiff.c:200 | there are at most as many patch bytes as positions compared |
| Encoder.PatchBytesCount | src/tools/romdiff.c:194-201 | there is exactly one patch byte per marked position |
| Encoder.ApproxRowStep | src/tools/romdiff.c:195-200 | a marked position ors its bit into row byte `2 + (l >> 3)` and appends one patch byte; an unmarked one changes nothing |
| Encoder.FullRunEndsScan | src/tools/romdiff.c:163 | after a 64-byte run every reachable candidate has been examined |
| Encoder.ApproxAdopted | src/tools/romdiff.c:177-182 | adopting an extension strictly cheaper than the row makes it the row's first cheapest candidate, and keeps the earlier extensions and offsets beaten |
| Encoder.ExactAdopted | src/tools/romdiff.c:210-215 | adopting an exact length strictly cheaper than the row makes it the first cheapest candidate, and keeps the shorter lengths and every approximate candidate beaten |
| Encoder.FirstCheapestKept | src/tools/romdiff.c:136-222 | which candidate is first cheapest at `p` depends only on the costs from `p` on, which later iterations of the backward pass leave alone |
| Encoder.CandidateBeaten | src/tools/romdiff.c:177-214 | at a settled offset, every candidate the pass examines costs at least as much as the row |
| Encoder.FirstDetermined | src/tools/romdiff.c:177-214 | two candidates that both reach the row's cost and are both the first to do so, in the pass's order, are the same candidate |
| Encoder.ApproxBlocks | src/tools/romdiff.c:177 | an approximate candidate that reaches the row's cost is not strictly beaten, so none examined after it can be the first cheapest |
| Encoder.ExactBlocks | src/tools/romdiff.c:210 | an exact length that reaches the row's cost is not strictly beaten, so no longer length can be the first cheapest |
| Encoder.RowDetermined | src/tools/romdiff.c:136-222 | two settled rows at `p` over the same later costs hold the same cost, candidate, transition and token |
| Encoder.SettledUnique | src/tools/romdiff.c:136-222 | any two fully settled tables for the same images are equal in every cost, transition, candidate, token length and token |
| Encoder.SettledCostsAgree | src/tools/romdiff.c:136-222 | settled tables agree on every cost, from the end backwards |
| Encoder.LastCost | src/tools/romdiff.c:142 | the last offset is a literal and costs 2 |
| Encoder.CostAtMostLiterals | src/tools/romdiff.c:141-147 | every cost is between 0 and the all-literal size `2(n-p)` |
| Encoder.CostIsChainEstimate | src/tools/romdiff.c:136-222 | `costs[0]` is the sum of the chosen tokens' estimates (2, 3 or `enc_len`) along the chain from 0 |
| Encoder.TokenLengths | src/tools/romdiff.c:186-219 | literal rows hold 2 bytes and step 1; exact rows hold 3 bytes; approximate rows hold at most 3+8+63 bytes; every row holds at most 4 bytes per byte covered |
| Encoder.SettledForward | src/tools/romdiff.c:229-236 | every transition satisfies `p < next_pos[p] <= N`, so neither exit of the assembler is reachable |
| Encoder.SettledBeatsPlans | src/tools/romdiff.c:136-222 | no encoding made of literals and exact copies is estimated smaller than `costs[p]` |
| Encoder.SettledStream | src/tools/romdiff.c:227-243 | the stream along the transitions is the chosen tokens in order, its length is the sum of `token_lens` along the chain, and it is at most `4n` |
| EncoderTables.Tables.constructor | src/tools/romdiff.c:90-95 | the reset loop sets every cost and transition to 999999999 and every token length to 0 |
| EncoderTables.Tables.Build | src/tools/romdiff.c:136-222 | after the backward pass every row is settled: consistent with its candidate, no costlier than any examined candidate, and holding the first candidate in the pass's order that strictly lowered the cost (exact address `best_addr`, approximate header address the best address at that reference offset); `Encoder.SettledUnique` makes these tables unique |
| EncoderTables.Tables.SettleOffset | src/tools/romdiff.c:138-221 | settling offset `i` extends the settled region, first-cheapest rows included, and returns the scan result |
| EncoderTables.Tables.Scan | src/tools/romdiff.c:149-206 | returns the longest run (lowest address on a tie); beats every approximate candidate reached; a lowered row `i` is an approximate candidate of a scanned reference offset, and an unlowered row keeps its transition and candidate; row `i` stays the first cheapest; other rows are left alone |
| EncoderTables.Tables.ApproxCandidates | src/tools/romdiff.c:166-204 | an offset with an exact run of at least one byte has all its extensions beaten afterwards, with row `i` still the first cheapest; a lowered row is an extension of the candidate at `j`, with header address `best_addr` and exact run `mlen`; an unlowered row, and every row when the offset has no run, keeps its transition and candidate |
| EncoderTables.Tables.SeedLiteral | src/tools/romdiff.c:141-147 | row `i` becomes the XOR literal with cost `costs[i+1] + 2`, the first candidate examined |
| EncoderTables.Tables.TryExact | src/tools/romdiff.c:209-221 | afterwards `costs[i] <= costs[i+len] + 3` for every `len` up to `best_len`; a lowered row is the exact match at `best_addr` of at most `best_len` bytes, and an unlowered row is unchanged |
| EncoderTables.Tables.ConsiderExact | src/tools/romdiff.c:210-220 | a length strictly cheaper than the row replaces it with `Exact(best_addr)` at `i+len` and cost `costs[i+len]+3`; otherwise the row is unchanged; either way row `i` is the first cheapest |
| EncoderTables.Tables.AdoptExact | src/tools/romdiff.c:213-219 | row `i` becomes the exact match, with cost `costs[i+len] + 3` |
| EncoderTables.Tables.TryApprox | src/tools/romdiff.c:166-205 | afterwards the cost beats every extension of the candidate at `j`, and row `i` is still the first cheapest; a lowered row is an extension of the candidate at `j`, with header address `best_addr` and exact run `mlen`; an unlowered row keeps its transition and candidate |
| EncoderTables.Tables.ConsiderExtension | src/tools/romdiff.c:177-203 | an extension strictly cheaper than the row replaces it, with header address `best_addr`, transition `i+k` and cost `costs[i+k]+enc_len`; otherwise the row is unchanged; afterwards the cost beats every extension up to `k` |
| EncoderTables.Tables.AdoptApprox | src/tools/romdiff.c:180-202 | row `i` becomes the approximate match, with cost `costs[i+k] + enc_len` |
| EncoderTables.Tables.WriteApproxToken | src/tools/romdiff.c:183-202 | the row holds exactly the header, the shifted bitmap and the patch bytes of `ApproxToken` |
| EncoderTables.Tables.MarkDifferences | src/tools/romdiff.c:194-202 | the comparison loop builds the bitmap and patches for all `k` positions |
| EncoderTables.Tables.MarkPosition | src/tools/romdiff.c:195-201 | one comparison updates the row as `ApproxRowStep` describes |
| EncoderTables.Tables.SettledIsLinked | src/tools/romdiff.c:227-243 | settled tables are linked, and their stream is the chosen tokens in order, at most `4n` bytes |
| EncoderTables.Tables.Assemble | src/tools/romdiff.c:227-243 | `diff` is a fresh `4n`-byte buffer; each error exit names an offending offset; on linked tables it succeeds, and `diff` holds the stream, `diff_len` is the sum of `token_lens` along the chain and `steps <= n` |
| EncoderTables.Tables.CopyToken | src/tools/romdiff.c:238 | `bcopy` appends the row's first `token_lens` bytes |
| EncoderTables.Encode | src/tools/romdiff.c:136-243 | the whole encoder assembles successfully into `4n` bytes; the stream is the chosen tokens, and `costs[0]` is their estimated size, at most `2n` |
| Decoder.Copy | src/tools/romdiff.c:45 | `bcopy` of `count` reference bytes from `addr` to `at`: those output bytes become the reference bytes, all others stay |
| Decoder.BitmapBits | src/tools/romdiff.c:66 | bitmap bit `i` is bit `i & 7` of the bitmap byte `i >> 3` |
| Decoder.Patch | src/tools/romdiff.c:65-69 | the patch loop changes no output byte outside the token's span |
| Decoder.DecodeToken | src/tools/romdiff.c:25-71 | each token moves the stream cursor forward and the output cursor by 0 to 62, and writes only inside that span |
| Decoder.DecodeFrom | src/tools/romdiff.c:24-79 | bytes below the output cursor are final; nothing at or beyond `n+62` is written; an early stop or a fault happens inside the stream; a wrong length differs from `n` |
| Decoder.Decode | src/tools/romdiff.c:21-80 | the output keeps its size; an early stop and a fault happen inside the stream; a wrong length differs from `n`; an empty stream gives 0 for an empty image and -1 otherwise |
| Decoder.ReturnValueMeaning | src/tools/romdiff.c:24-79 | a defined run returns -1 exactly when the loop ends by reading the whole stream with `out_ofs != FILE_SIZE`, and 0 exactly when it stops early with `out_ofs >= FILE_SIZE` or ends with `out_ofs == FILE_SIZE` |
| Decoder.PatchConsumes | src/tools/romdiff.c:62-69 | the patch loop consumes one patch byte per set bit among the first `count`, and fails only when the stream buffer runs out |
| Decoder.PatchXors | src/tools/romdiff.c:65-69 | each set bit XORs into its output byte the patch byte that follows those of the earlier set bits |
| Decoder.ApproxTokenDecodes | src/tools/romdiff.c:49-71 | an approximate token copies `count` bytes, patches the set bits and resumes one byte past the last patch byte; the output cursor advances by `count` |
| Decoder.DecodeDiff | src/tools/romdiff.c:21-80 | the loop over the stream returns the functional decoder's outcome, and on a defined run its output |
| Decoder.DecodeOneToken | src/tools/romdiff.c:25-71 | one loop body, including `ofs++`, is one `DecodeToken` step |
| Decoder.CopyReference | src/tools/romdiff.c:45 | `bcopy` from the reference into the output |
| Decoder.PatchOutput | src/tools/romdiff.c:65-69 | the patch loop on the output array is `Patch` |
| Pairing.LiteralPayloadReadAsTag | src/tools/romdiff.c:31-36 | the literal tags consume one byte, so the payload is decoded as the next tag |
| Pairing.EncodedExactToken | src/tools/romdiff.c:37-48 | an encoder exact token of length `len` decodes as a copy of `len-1` bytes, and the decoder skips the byte after it |
| Pairing.EncodedLength64Faults | src/tools/romdiff.c:49-59 | the decoder faults on a 64-byte exact token (`bcopy` with count -1) |
| Pairing.SingleExactStreamFallsShort | src/tools/romdiff.c:74-77 | one exact token covering a 1..63-byte image decodes one byte short, and `decode_diff` returns -1 |
| Pairing.ApproxBitmapShifted | src/tools/romdiff.c:191-197 | the decoder's bitmap bit `t` (read from index 3) is the encoder's mark for position `t+8` |
| Pairing.RowBitShifted | src/tools/romdiff.c:197 | in any approximate row, bit `s` at index `3+b` is the flag for position `8b+s+8` |

## Left out

- File I/O and argument handling in `main` (lines 85-121 and 246-252). The images are parameters, and the written stream is the `diff` array.
- All `fprintf` diagnostics and the `diffs` counter. The counter is only printed.
- `exit(-1)` in the assembler. It is modelled as the `OutOfBounds` and `Backwards` statuses.
- The final `decode_diff` call of `main`. The decoder is modelled on its own, and `Pairing` states how it reads encoder tokens.
- `FILE_SIZE` as a constant. It is the image length `n`. The decoder's output buffer `out[2*FILE_SIZE]` is an array of the caller's choosing; the assembler allocates `diff` with `4n` bytes, as `diff[4*FILE_SIZE]` has.
- Undefined behaviour in C: reads past the stream buffer or the reference, writes past `out`, and `bcopy` with a negative count. The decoder ends such a run with `Undefined`, and the assembler reports a token that would not fit as `Overflow`. The C program checks neither.
- The hardware test programs `src/tests/qop_test.c` and `src/tests/ultrasoundtest.c`. They are not part of this model, because their behaviour is that of the machine under test.
- A round-trip theorem `decode(encode(x)) == x`. The source does not meet it; `Pairing` states the individual ways it fails.
- Decoder.DecodeDiff: when a run hits undefined behaviour part-way through a token, the contract does not describe the partially written output.
- EncoderTables.Tables.Assemble: success is promised only for linked tables. `EncoderTables.Encode` provides them.
- Encoder.SettledBeatsPlans: optimality is proved against encodings made of literals and exact copies only. An approximate candidate is compared only when the scan reached its reference offset, because the scan stops at the first 64-byte run.
