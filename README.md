# shamir-combine, modelled in Dafny

`shamir-combine` (guff-ssss, `src/bin/shamir-combine.rs`) rebuilds a secret
from shares made by Shamir's threshold scheme over GF(2^8). It reads one share
per line in the form `K=W=S=HEX=`. K is the quorum, W the field width in bits,
S the share index, and HEX the share's bytes. `parse_shares` checks every line
and collects the lines into a `Decoder`. `pass_1` computes the Lagrange basis
coefficients at x = 0 from the first K share indices. `pass_2` XORs, for each
byte of the secret, the K share bytes of that column times the coefficients.
`main` runs both passes when W = 8.

The model keeps the program's own form:

- `Combine.Decoder` is a class with the struct's fields. `Accept` (one turn of
  the loop of `parse_shares`) and `Pass1` update it in place; `Pass2` only
  reads it, as `pass_2` does.
- `Combine.ParseShares` runs the loop of `parse_shares` over a sequence of
  input lines, and `Combine.CombineShares` is `main`.
- Every method is proved against a function:
  - `Session.Step` / `Session.RunParsed` for the parser's state machine;
  - `Passes.Pass1Result` and `Passes.Pass2Result` for the passes;
  - `Combine.Outcome` for the whole run.
- A panic is an error value (`Panics.Panic`). The program stops at the first
  one, and so does the model.

The properties proved about those functions:

- **Acceptance.** The parser accepts exactly the inputs its rules allow
  (`Session.RunAccepts`). It then holds the first K indices as x-values and
  every line's bytes in arrival order.
- **Pass 1.** It computes the Lagrange basis at 0 exactly when the K x-values
  are distinct; otherwise it divides by zero (`Passes.Pass1Complete`).
- **Pass 2.** It reads only the first K × words share bytes
  (`Passes.Pass2ReadsPrefix`).
- **End to end.** Take at least K share lines (K at most 128) written for
  any polynomials of degree below K, with indices in 1 .. 128 in any order.
  When their first K indices are distinct, the program gives back every
  polynomial's constant term, which is the secret. When two of the first K
  indices are equal, it panics with `DivisionByZero`
  (`Recovery.CombineShareLines`).

The field comes from the `gf_2px` crate, which is not part of this model. It
is modelled here explicitly:
- `GFBits`: addition is XOR;
- `GF256`: multiplication is shift-and-XOR modulo 0x11b (the polynomial in the
  comment at line 324), with its ring laws proved, and the inverse is found by search,
  proved to exist for every nonzero byte through the orbit of the generator 3
  (`GFOrbit`);
- `Text`: the Rust string routines the parser calls (`trim`, `split`, integer
  parsing, `str::len`, `hex::decode`), each as a function with its own
  properties.

Two behaviours of the program that the model keeps:

- A duplicate share index is not rejected when the share is read. Among the
  first K shares, it makes pass 1 divide `x_j ^ x_l = 0`, which is the
  `DivisionByZero` panic; after the K-th share it does no harm.
- Widths 4, 16 and 32 are not solved. The first line of such a width stops at
  `unimplemented!()` when its x-value is stored (line 179), so their solvers
  are never reached (`Recovery.OnlyWidth8Solves`).

## Model

| member | source | states |
|---|---|---|
| Text.Trim | src/bin/shamir-combine.rs:121 | `str::trim` leaves no white space at either end |
| Text.TrimIsSlice | src/bin/shamir-combine.rs:121 | the trimmed line is a slice of the line with only white space before and after it |
| Text.TrimIdempotent | src/bin/shamir-combine.rs:121 | trimming twice is trimming once |
| Text.Split | src/bin/shamir-combine.rs:121 | `split("=")` yields one piece more than there are '=' signs, no piece holds '=', and joining the pieces with '=' gives the text back |
| Text.SplitJoin | src/bin/shamir-combine.rs:121 | splitting undoes joining segments that hold no '=' |
| Text.ParseUnsigned | src/bin/shamir-combine.rs:132-134 | `parse::<u16>` / `parse::<u64>` succeed exactly on an optional '+' and one or more digits whose value fits the type, and yield that value |
| Text.ParseDecimal | src/bin/shamir-combine.rs:132-134 | parsing reads back any number written in decimal that fits the type |
| Text.Utf8Length | src/bin/shamir-combine.rs:135 | `str::len` counts UTF-8 bytes: between 1 and 4 per character, and one per character exactly when all are ASCII |
| Text.HexDecode | src/bin/shamir-combine.rs:151-152 | `hex::decode` succeeds exactly on an even run of hex digits and yields one byte per digit pair, high nibble first |
| Text.HexRoundTrip | src/bin/shamir-combine.rs:151-152 | decoding the lower-case hex of some bytes gives the bytes back |
| ShareLine.ParseFields | src/bin/shamir-combine.rs:122-152 | a line's segments pass exactly when there are five, K, W and S parse as u16, u16 and u64, the fifth is empty, W is nonzero and divides 4 × the hex length, W = 4 has an even hex length, and the hex decodes; it then returns those values, and otherwise one of the line-level panics |
| ShareLine.ParseLine | src/bin/shamir-combine.rs:120-152 | a line passes exactly when the segments of its trimmed text are well formed (as ParseFields checks them); it then has five segments and W != 0, and a rejected line gives one of the line-level panics |
| ShareLine.SegmentsOfJoin | src/bin/shamir-combine.rs:121 | trim and split give back five '='-free segments joined by '=', when the first segment starts with a non-space and the last is empty |
| ShareLine.ParseFormatLine | src/bin/shamir-combine.rs:120-152 | a line written as `K=W=S=HEX=` parses back to K, W, S, the hex length and the bytes, when these pass the line checks |
| Session.Step | src/bin/shamir-combine.rs:154-180 | one turn of the loop: a line that failed its own checks passes its panic on; otherwise the step panics with one of the session panics, or counts the line, appends its bytes, takes K, W and hex length from it, has checked 1 <= S <= 2^(W-1), and pushes `S & 255` as an x-value exactly while the count is within K |
| Session.RunParsed | src/bin/shamir-combine.rs:117-182 | the whole loop over lines already split and checked; a run without a panic has counted every line and holds at most one x-value per line |
| Session.Run | src/bin/shamir-combine.rs:104-183 | parse_shares over the input lines; a run without a panic has counted every line, and every line passed its own checks |
| Session.StepAccepts | src/bin/shamir-combine.rs:154-180 | a line that keeps the input acceptable moves a state describing the earlier lines to a state describing all of them |
| Session.StepLater | src/bin/shamir-combine.rs:164-180 | a later line that agrees on W, K and hex length and has 1 <= S <= 128 is counted, its bytes appended, and its index kept as an x-value only while the count is within K |
| Session.DescribesLater | src/bin/shamir-combine.rs:170-180 | after such a line the x-values are the indices of the first min(n, K) lines and the share bytes are those of all n lines |
| Session.StepRejects | src/bin/shamir-combine.rs:156-180 | a line that makes the input unacceptable panics |
| Session.RunAccepts | src/bin/shamir-combine.rs:104-183 | parse_shares finishes without a panic exactly when every line parses, the first has W = 8 and 1 <= K <= 128, every line agrees with it on W, K and hex length, and every index is in 1 .. 128; it then holds min(n, K) x-values (the first lines' indices) and all lines' bytes in order |
| Session.RunNext | src/bin/shamir-combine.rs:117-182 | one more line moves the session on by one step |
| Session.RunErrSticks | src/bin/shamir-combine.rs:117-182 | after a panic later lines change nothing |
| GF256.Mul | src/bin/shamir-combine.rs:257 | the field product: zero when a factor is zero, and a × 1 = a; its ring laws are the lemmas below |
| GF256.MulExample | src/bin/shamir-combine.rs:324 | {57} × {83} = {c1} modulo 0x11b |
| GF256.MulComm | src/bin/shamir-combine.rs:257 | field multiplication commutes |
| GF256.MulAssoc | src/bin/shamir-combine.rs:257 | field multiplication is associative |
| GF256.MulAddLeft | src/bin/shamir-combine.rs:294-295 | multiplication distributes over XOR |
| GF256.NoZeroDivisors | src/bin/shamir-combine.rs:262 | a product is zero exactly when a factor is |
| GF256.InverseExists | src/bin/shamir-combine.rs:258-259 | every nonzero byte has a multiplicative inverse |
| GF256.Inverse | src/bin/shamir-combine.rs:258-259 | a nonzero byte times its inverse is 1 |
| GF256.Div | src/bin/shamir-combine.rs:258-259 | a / b times b is a, for b != 0 |
| GF256.DivUnique | src/bin/shamir-combine.rs:258-259 | that quotient is the only such value |
| Lagrange.EvalAtZero | src/bin/shamir-combine.rs:44-46 | f(0) is the constant term a_0 |
| Lagrange.LagrangeAtZero | src/bin/shamir-combine.rs:50-57 | for distinct points x_0 .. x_{n-1} and a polynomial of degree below n, the sum of f(x_j) × prod_{l != j} x_l / (x_j + x_l) is f(0) |
| Passes.InnerUpTo | src/bin/shamir-combine.rs:254-261 | the inner loop of pass 1 can only panic on a missing x-value or on a division by zero |
| Passes.InnerNext | src/bin/shamir-combine.rs:256-260 | one turn of the inner loop: skip l = j, panic on a missing x-value or x_j ^ x_l = 0, else temp × x_l / (x_j ^ x_l) |
| Passes.Coefficient | src/bin/shamir-combine.rs:253-263 | a coefficient pass 1 keeps is nonzero |
| Passes.CoefficientsUpTo | src/bin/shamir-combine.rs:253-264 | after j turns of the outer loop there are j coefficients, or one of the three pass-1 panics |
| Passes.Pass1Result | src/bin/shamir-combine.rs:246-265 | a successful pass 1 yields exactly K coefficients, all nonzero; a failed one panics on a missing x-value, a division by zero or a zero coefficient |
| Passes.InnerBasis | src/bin/shamir-combine.rs:254-261 | the inner loop computes prod_{l<m, l != j} x_l / (x_j + x_l), or divides by zero exactly when some x_l (l != j) equals x_j |
| Passes.BasisNonZero | src/bin/shamir-combine.rs:262 | with nonzero x-values and no clash the coefficient is nonzero, so the linear-independence panic is never reached |
| Passes.CoefficientClosed | src/bin/shamir-combine.rs:253-263 | coefficient j is the Lagrange basis value L_j, or a division by zero when x_j is repeated |
| Passes.CoefficientsClosed | src/bin/shamir-combine.rs:253-264 | the first m coefficients are L_0 .. L_{m-1}, or a division by zero when one of them meets a repeated x-value |
| Passes.Pass1Complete | src/bin/shamir-combine.rs:246-265 | with K nonzero x-values, pass 1 yields the Lagrange basis at 0 when they are distinct and panics dividing by zero otherwise |
| Passes.Pass1Short | src/bin/shamir-combine.rs:257 | with fewer distinct x-values than K >= 2, pass 1 panics indexing past the x-values |
| Passes.Answer | src/bin/shamir-combine.rs:282-298 | the answer has one word per column, and word i is the XOR over j < K of share byte i + j × words times coefficient j |
| Passes.Pass2Result | src/bin/shamir-combine.rs:267-300 | pass 2 succeeds exactly when the K × words share bytes are there (and K coefficients, when there is a word), and then returns one byte per word; otherwise it panics on a missing share byte or a missing coefficient |
| Passes.Word | src/bin/shamir-combine.rs:287-296 | `temp` after the inner loop of pass 2: the XOR over lines j < m of share byte i + j × words times coefficient j, which is zero when the coefficients are; WordOfValues connects it to the Lagrange sum |
| Passes.WordOfValues | src/bin/shamir-combine.rs:287-296 | a word whose column holds values y_j is the sum of y_j × coefficient j |
| Passes.WordPrefix | src/bin/shamir-combine.rs:287-296 | bytes after those a word reads do not change it |
| Passes.Pass2ReadsPrefix | src/bin/shamir-combine.rs:283-298 | pass 2 gives the same answer from the first K × words share bytes alone, so the bytes of lines after the K-th never reach the secret |
| Combine.Decoder.constructor | src/bin/shamir-combine.rs:109-115 | the decoder starts with every number zero and every vector empty |
| Combine.Decoder.Accept | src/bin/shamir-combine.rs:154-180 | one turn of the parse loop updates the decoder to the session's next state, or returns the panic of that step |
| Combine.Decoder.Pass1 | src/bin/shamir-combine.rs:246-265 | pass_1 appends exactly the coefficients of Pass1Result, or returns its panic, and changes nothing else |
| Combine.Decoder.Pass2 | src/bin/shamir-combine.rs:267-300 | pass_2 returns Pass2Result of the decoder's shares, coefficients, hex length / 2 and K |
| Combine.CombineWord | src/bin/shamir-combine.rs:284-296 | the inner loop of pass 2 gives word i, or the panic of the whole pass |
| Combine.InnerProduct | src/bin/shamir-combine.rs:254-261 | the inner loop of pass 1 gives InnerUpTo for all K values of l |
| Combine.ShareStop | src/bin/shamir-combine.rs:289-292 | running out of share bytes at word i, line j is the pass's MissingShareData panic |
| Combine.CoefficientStop | src/bin/shamir-combine.rs:293 | running out of coefficients is the pass's MissingCoefficients panic |
| Combine.ParseShares | src/bin/shamir-combine.rs:104-183 | parse_shares returns a fresh decoder holding the session state of all lines, or the session's first panic |
| Combine.Finish | src/bin/shamir-combine.rs:319-339 | main's dispatch on the width: a parse panic is passed on; a result only comes from W = 8 and has hex length / 2 bytes; the not-implemented panic happens exactly for W = 4, 16 or 32; and for W = 8 the only panics are those of the two passes |
| Combine.Outcome | src/bin/shamir-combine.rs:307-341 | what shamir-combine makes of its input: a result only when parse_shares accepted lines of width 8, with hex length / 2 bytes |
| Combine.CombineShares | src/bin/shamir-combine.rs:307-341 | main's result is Outcome: the session's panic, or both passes in GF(2^8) for W = 8 |
| Recovery.ParsedShareLines | src/bin/shamir-combine.rs:120-152 | share lines written for quorum K and W = 8 parse to their K, index, hex length and bytes |
| Recovery.FlattenAt | src/bin/shamir-combine.rs:154 | appending each line's bytes puts byte i of line j at j × words + i |
| Recovery.SessionOfShares | src/bin/shamir-combine.rs:104-183 | such lines are accepted, and the session holds what RunAccepts says |
| Recovery.DistinctIndices | src/bin/shamir-combine.rs:178 | the stored x-values `S & 255` are distinct exactly when the first K indices are |
| Recovery.WordSecret | src/bin/shamir-combine.rs:287-296 | with the Lagrange basis of distinct x-values as coefficients, a word whose column holds a polynomial's values at those x-values is the polynomial's constant term |
| Recovery.Pass2OfShares | src/bin/shamir-combine.rs:283-298 | with the Lagrange basis as coefficients, pass 2 over the shares' bytes returns every polynomial's constant term |
| Recovery.CombineShareLines | src/bin/shamir-combine.rs:41-57 | from the lines of n >= K shares of any polynomials of degree below K, in any order, shamir-combine returns their constant terms when the first K indices are distinct and panics dividing by zero otherwise |
| Recovery.CombineTooFewLines | src/bin/shamir-combine.rs:253-259 | fewer than K >= 2 shares with distinct indices make pass 1 panic on a missing x-value |
| Recovery.AcceptedWidth | src/bin/shamir-combine.rs:177-180 | an accepted input has W = 8, or no lines and W = 0 |
| Recovery.OnlyWidth8Solves | src/bin/shamir-combine.rs:319-339 | the 4-, 16- and 32-bit solvers are never reached, and an accepted input reaches the catch-all panic of main exactly when it is empty |
| Recovery.RunPanics | src/bin/shamir-combine.rs:117-182 | parse_shares panics only with the parser's own panics |

## Left out

- Reading standard input, all `eprintln!`/`println!` output (including the
  "Ignoring share" notice), clap argument handling, and the final
  `String::from_utf8` of the answer. The model takes the lines as a sequence of
  strings and returns the answer's bytes.
- The `gf_2px` crate is not part of this model. GF(2^8) is written out
  explicitly instead. The crate's behaviour on division by zero is unknown; the
  model treats it as a panic (`DivisionByZero`).
- `take_something_implementing_field` and `pass_3` are stubs that panic. Only
  that panic is modelled (`FieldNotImplemented`), and
  `Recovery.OnlyWidth8Solves` shows it is unreachable.
- Combine.Decoder.Accept: the check `k > 1 << (w - 1)` at line 160 uses
  mathematical integers. In the source the shift is a u16 and overflows for
  W = 32, so such a first line may panic there rather than at line 179.
- Combine.ParseShares: the line counter is unbounded. The source's counter
  would overflow after 65535 lines.
- Combine.Decoder.Pass2: `i + j * words` is unbounded. The usize overflow it
  could reach on a huge input is not modelled.
- The `solution` field of the `Decoder` is kept but never written, as in the
  source.
- `src/bin/shamir-split.rs`: its `main` is empty, so there is nothing to model.
