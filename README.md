# STM32 CRC tool — bit-serial CRC engine in Dafny

This project models the core of `stm32_crc_tool.py`, a Python tool that computes
CRC checksums the way the STM32F2/F4 hardware CRC unit does. That unit processes
one word at a time, bit by bit. The model has three modules:

- `Bits` (`bits.dfy`): Python's integer operators `<<`, `&`, `|` and `^` on
  non-negative, unbounded integers. `a << 1` is `2 * a`. `&`, `|` and `^` are
  recursive functions on `nat`. Lemmas give them their arithmetic meaning:
  masking with n ones is a remainder modulo 2^n, `x & (1 << i)` tests bit i,
  and bit i of `a ^ b` is set when the two bits differ.
- `CrcEngine` (`crc_engine.dfy`): `msb` and `embedded_crc`.
  - `Round`, `Rounds` and `Crc` are the specification. One round doubles the
    register, XORs the polynomial when the old top bit was set, and reduces
    modulo 2^W. `Crc` applies W rounds to the seed `initial_crc ^ input_data`.
  - The method `EmbeddedCrc` follows the code step by step. It builds `msk`
    in a `for` loop and runs the `while` loop with `msb`, `^` and `& msk`.
    It is proved equal to `Crc`.
- `Chain` (`chain.dfy`): `prepare_data` and `process_queue`.
  - `Flatten` is the in-order list of the character codes of all strings.
  - `Fold` is the left fold of the CRC step, each result seeding the next step.
  - The methods `PrepareData` and `ProcessQueue` keep the code's loops and are
    proved equal to these functions.

All integers are `nat`, because Python integers have no upper bound. Nothing
wraps at 32 bits. The code masks every round, and that is what keeps results
within W bits.

The default polynomial 0x04C11DB7 is the CRC-32 generator polynomial of IEEE
802.3 (section 3.2.9, Frame Check Sequence field). The code is not the 802.3
FCS: it has no bit reflection and no final complement. The model follows the
code.

Two behaviours of the code are worth stating on their own:

- Width 0: both loops are skipped and `initial_crc ^ input_data` comes back
  unmasked (`CrcEngine.CrcZeroWidth`, `CrcEngine.EmbeddedCrc`).
- The seed is not masked before the rounds. `CrcEngine.CrcIgnoresHighBits`
  shows that for W >= 1 this changes nothing: bits above W in the input word,
  the polynomial or the seed never change the result.

## Model

| member | source | states |
|---|---|---|
| Bits.ShiftOrOne | stm32_crc_tool.py:20-21 | shifting msk left and OR-ing in 1 gives `2*msk + 1`, so each pass of the mask loop appends one 1-bit |
| Bits.AndMask | stm32_crc_tool.py:36-39 | `x & msk` with msk = 2^n - 1 is exactly x mod 2^n |
| Bits.AndPow2 | stm32_crc_tool.py:14 | `val & (1 << i)` is `1 << i` when bit i of val is set and 0 otherwise |
| Bits.XorBit | stm32_crc_tool.py:27 | bit i of `a ^ b` is set iff bits i of a and b differ |
| Bits.AndBit | stm32_crc_tool.py:36 | bit i of `a & b` is set iff bits i of a and b are both set |
| Bits.XorMod | stm32_crc_tool.py:36 | the low n bits of `a ^ b` depend only on the low n bits of a and b |
| CrcEngine.MsbIsTopBit | stm32_crc_tool.py:11-14 | `msb(val, bits)` holds exactly when bit `bits-1` of val is 1 |
| CrcEngine.CodeRoundIsRound | stm32_crc_tool.py:35-39 | the loop body, `((crc<<1) ^ poly) & msk` if msb else `(crc<<1) & msk`, is one CRC round: double, XOR poly if the top bit was set, reduce mod 2^W |
| CrcEngine.EmbeddedCrc | stm32_crc_tool.py:17-43 | the mask loop keeps msk = 2^i - 1 as its loop invariant, so msk = 2^W - 1 before the rounds; the result is `Crc`, i.e. W rounds applied to `initial_crc ^ input_data`; below 2^W when W >= 1; the unmasked seed when W = 0 |
| CrcEngine.CrcBound | stm32_crc_tool.py:30-43 | for W >= 1 the step result lies in [0, 2^W - 1], whatever the sizes of poly, seed and input |
| CrcEngine.CrcZeroWidth | stm32_crc_tool.py:27-31 | with W = 0 no round runs and `initial_crc ^ input_data` is returned unmasked |
| CrcEngine.CrcDependsOnXor | stm32_crc_tool.py:27 | `embedded_crc(d, p, i, W) == embedded_crc(0, p, i ^ d, W)`: input and seed enter only through their XOR |
| CrcEngine.RoundModRegister | stm32_crc_tool.py:35-39 | a round depends only on the low W bits of the register |
| CrcEngine.RoundModPoly | stm32_crc_tool.py:36 | a round depends only on the low W bits of the polynomial |
| CrcEngine.RoundsModulo | stm32_crc_tool.py:31-41 | for 1 <= n <= W, n rounds give the same register when the seed and the polynomial are first reduced mod 2^W |
| CrcEngine.CrcIgnoresHighBits | stm32_crc_tool.py:27-43 | for W >= 1, reducing input, polynomial and seed mod 2^W first does not change the result |
| CrcEngine.AppNoteVector | stm32_crc_tool.py:73-78 | the 8-bit configuration input 0xC1, poly 0xCB, seed 0xFF gives 0x4C |
| Chain.PrepareData | stm32_crc_tool.py:46-51 | the nested append loops return `Flatten(data)`, every character's code in order, strings in order |
| Chain.FlattenLength | stm32_crc_tool.py:46-51 | the flattened list is as long as the total character count |
| Chain.FlattenAppend | stm32_crc_tool.py:46-51 | `prepare_data(a + b) == prepare_data(a) + prepare_data(b)` |
| Chain.FlattenEmpty | stm32_crc_tool.py:46-51 | the flattened list is empty iff every string is empty |
| Chain.ProcessQueue | stm32_crc_tool.py:53-58 | the loop returns the left fold of `embedded_crc` over the codes, starting at initial_crc; initial_crc itself when there are no characters; below 2^W when W >= 1 and there is a character |
| Chain.FoldAppend | stm32_crc_tool.py:55-58 | folding over a + b equals folding over b from the result for a |
| Chain.FoldBound | stm32_crc_tool.py:55-58 | after at least one code the running CRC is at most 2^W - 1 (W >= 1) |
| Chain.QueueCrcOfNoCharacters | stm32_crc_tool.py:53-58 | no strings, or only empty ones, return initial_crc unchanged |
| Chain.QueueCrcAppend | stm32_crc_tool.py:53-58 | `process_queue(a + b, p, i, W) == process_queue(b, p, process_queue(a, p, i, W), W)` |
| Chain.QueueCrcTwoCharacters | stm32_crc_tool.py:53-58 | two one-character strings give two chained steps: `embedded_crc(ord(y), p, embedded_crc(ord(x), p, i, W), W)` |
| Chain.QueueCrcBound | stm32_crc_tool.py:53-58 | with W >= 1 and at least one character the result is at most 2^W - 1 |

## Left out

- `_debug_mode` and `debug_msg` (stm32_crc_tool.py:3-8 and the calls at 24-37): a process-wide flag and printing. They do not affect any result.
- `demonstration` (stm32_crc_tool.py:61-93): console output and toggling the debug flag. Its 8-bit inputs are used in `CrcEngine.AppNoteVector`.
- The 32-bit demonstration (`embedded_crc(0x41)` with the hardware defaults) has no proved value: proving it means unfolding 32 rounds of the recursive bit operators on 33-bit literals; it is not attempted.
- `handle_arguments` and the `__main__` block (stm32_crc_tool.py:96-132): argument parsing, help text and printing `hex(crc)`.
- Negative integers: `-b`, `-p` and `-i` are `type=int` options (stm32_crc_tool.py:110-115), so negative values reach `process_queue` from the command line (:131). They are not modelled: every value is a `nat`. For W >= 1 Python's `& msk` and `msb` read the two's-complement low bits, so the result is the model's result on the residues mod 2^W; this is not proved here. A negative width skips both loops, just like width 0.
- Default arguments: `msb`'s `bits=8` (stm32_crc_tool.py:11) and the defaults `poly=0x04C11DB7`, `initial_crc=0xFFFFFFFF`, `sizeof_input=32` of `embedded_crc` (:17) and `process_queue` (:53) are not modelled. Every member takes all of its parameters explicitly.
- CrcEngine.Msb: `msb(val, 0)` raises an error in Python (a negative shift count). The model requires `bits >= 1`. The only caller, the round loop, never passes 0.
- Characters are Dafny `char`s, which are Unicode scalar values. `ord` of a lone surrogate, which Python strings can hold, is not representable.
- Passing one string instead of a list to `process_queue` is not modelled. Python would iterate its characters, which gives the same codes as a list of one-character strings.
