# XTerm modifyOtherKeys decoding and capability messages

A Dafny model of the XTerm support in the terminal-UI runtime's `xterm.go`:

- the decoder `parseXTermModifyOtherKeys`. It turns an XTerm modifyOtherKeys key
  report `CSI 27 ; <modifier+1> ; <code> ~` into one key press `{Mod, Code, Text}`;
- the commands and messages that set the terminal's modifyOtherKeys mode, query that
  mode, and query the terminal version (XTVERSION);
- the two report messages that carry the terminal's answers.

Files:

- `gorunes.dfy` (module `GoRunes`) models the two Go conversions the decoder
  applies to a code point. `rune(x)` keeps the low 32 bits as a signed value.
  `string(r)` yields the UTF-8 bytes of `r`, or those of U+FFFD when `r` is not a
  Unicode scalar value. A Go string is a byte sequence, so `Text` is a
  `seq<Byte>`. UTF-8 (RFC 3629, section 3) is written out as an encoder with a
  validating decoder, and the two are proved inverse in both directions.
- `keys.dfy` (module `Keys`) holds the key vocabulary the decoder uses: the
  modifier set `KeyMod`, the `ModShift` threshold, the five control code points,
  the key codes and the key-press event.
- `xterm.dfy` (module `XTerm`) holds the message and command datatypes (the
  version report carries its text as bytes, like any Go string), the
  constructors, the decoder and the lemmas about them. `Cmd` is modelled as a
  deferred message that `Run` yields.

The decoder is partnered with `ReportParams`, the canonical report that decodes
to a given key press (Backspace written as BS). Decoding inverts it on every event the decoder can
produce (`DecodeReport`). Re-encoding a decoded event gives back the report, up to
two things: the low 32 bits of the code, and DEL folded onto BS (`ReportDecode`).
Together these show that those two are the only inputs the decoder merges
(`DecodeInjective`).

The report `CSI 27;5;97~` decodes to modifier value 4 and code 'a' with no text,
because the decoder subtracts one from the wire value 5.

## Model

| member | source | states |
|---|---|---|
| `XTerm.ParseXTermModifyOtherKeys` | xterm.go:30-55 | Always a key press. Its modifier is the wire value minus one on every branch. BS and DEL give Backspace; HT, CR and ESC give Tab, Enter and Escape (each iff). No control character is ever carried as a code point, and every other code point is carried unchanged. Text is non-empty iff the code is a code point and the modifier is at most Shift; it is then Go's string(r): the UTF-8 of r, or of U+FFFD when r is not a scalar value |
| `XTerm.ReportParams` | xterm.go:31 | The canonical report that decodes to a key press: modifier+1 (always at least 1), and a control code for each symbolic key, never DEL |
| `XTerm.CanonicalCode` | xterm.go:36-45 | The code the decoder distinguishes: a 32-bit rune, never DEL, equal to the truncated parameter except that DEL becomes BS |
| `XTerm.DecodeReport` | xterm.go:30-55 | Every key press the decoder can produce is decoded back unchanged from its own wire form |
| `XTerm.ReportDecode` | xterm.go:30-55 | Every decoded key press is one the decoder can produce, and its wire form is the original modifier with the canonical code |
| `XTerm.DecodeInjective` | xterm.go:35-52 | Two reports decode to the same key press iff they have the same modifier and the same canonical code, so BS/DEL is the only pair of distinct runes that the decoder merges |
| `XTerm.DecodeLow32` | xterm.go:33 | The decoder depends only on the low 32 bits of the code parameter |
| `XTerm.EnableModifyOtherKeys` | xterm.go:19-23 | The command yields the set-mode intent carrying the mode unchanged |
| `XTerm.DisableModifyOtherKeys` | xterm.go:25-28 | Disabling is the same message that the enable command for mode 0 yields |
| `XTerm.ModifyOtherKeys` | xterm.go:61-65 | The mode query is an intent, not a set-mode intent, and differs from the version query |
| `XTerm.TerminalVersion` | xterm.go:86-90 | The version query is an intent, not a set-mode intent |
| `XTerm.ModifyOtherKeysMsg` | xterm.go:67-77 | The mode report is a report, never an intent, and carries the mode unchanged |
| `XTerm.TerminalVersionMsg` | xterm.go:79-80 | The version report is a report, never an intent, and carries the version text unchanged |
| `XTerm.EnableDisable` | xterm.go:19-28 | Running the enable command yields the set-mode intent with the mode unchanged. Disabling is the same message as enabling mode 0, and differs from enabling any other mode |
| `XTerm.QueriesAreDistinct` | xterm.go:57-90 | The mode query and the version query are intents that differ from each other and from every set-mode intent |
| `XTerm.ReportsAreNotIntents` | xterm.go:67-80 | The mode and version reports carry their value unchanged and are never intents. A mode report differs from the intent to set that mode |
| `XTerm.EnterScenario` | xterm.go:40-41 | `CSI 27;1;13~` decodes to Enter with no modifiers and no text |
| `XTerm.CtrlLetterScenario` | xterm.go:48-54 | `CSI 27;5;97~` decodes to 'a' with modifier 4 and no text |
| `XTerm.PlainLetterScenario` | xterm.go:49-52 | `CSI 27;1;97~` and `CSI 27;2;97~` type "a". `CSI 27;1;233~` types the two UTF-8 bytes C3 A9 |
| `XTerm.SurrogateScenario` | xterm.go:49-52 | `CSI 27;1;55296~` (the surrogate U+D800) types the UTF-8 of U+FFFD, bytes EF BF BD |
| `XTerm.DeleteScenario` | xterm.go:44-45 | `CSI 27;3;127~` decodes to Backspace with modifier 2, the same event as `CSI 27;3;8~` |
| `GoRunes.ToRune` | xterm.go:33 | The Go conversion to rune: the result is a 32-bit rune, congruent to the input modulo 2^32, and equal to the input when that is already a rune |
| `GoRunes.ToRuneShift` | xterm.go:33 | Inputs that differ by a multiple of 2^32 convert to the same rune |
| `GoRunes.RuneString` | xterm.go:51 | The Go conversion string(r): 1 to 4 bytes that decode as UTF-8 to r when r is a scalar value, and to U+FFFD otherwise. It is the single byte r exactly for ASCII |
| `GoRunes.EncodeRune` | xterm.go:51 | The UTF-8 encoding of a scalar value is 1 to 4 bytes long, and 1 byte iff the value is ASCII |
| `GoRunes.DecodeRune` | xterm.go:51 | A successful decode yields a Unicode scalar value |
| `GoRunes.EncodeDecode` | xterm.go:51 | Decoding the UTF-8 encoding of any scalar value gives that value back |
| `GoRunes.DecodeEncode` | xterm.go:51 | Any byte string that decodes is the unique encoding of its value, so there are no overlong forms |

## Left out

- ParseXTermModifyOtherKeys: requires the modifier parameter to be at least 1. The width and signedness of `KeyMod` are declared outside xterm.go, so the model does not say what `KeyMod(Param(1)-1)` becomes for a missing, zero or negative parameter. For a parameter beyond that width the model gives `modParam - 1` unbounded, where Go would wrap it to `KeyMod`'s width (and so could decide the text differently).
- The control-sequence tokenizer (`ansi.CsiSequence`) and the defaults `Param` applies are not part of this model. The decoder takes the two parameters as given integers.
- `KeyBackspace`, `KeyTab`, `KeyEnter`, `KeyEscape` and `ModShift` are declared outside xterm.go. The four keys are modelled as symbolic codes distinct from every code point, and `ModShift` as the constant 1.
- The `Cmd` executor and the write path that turns `setModifyOtherKeysMsg`, the mode query and the version query into terminal bytes are not part of this model. A command is modelled only as the message it yields.
- Nothing in xterm.go records which query is outstanding or matches reports to queries, so no negotiation state is modelled.
- examples/repro/main.go is an example application (log-file handling, the program loop). It is not modelled.
