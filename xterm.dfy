/** XTerm modifyOtherKeys support: the decoder for key reports of the form
    CSI 27 ; <modifier+1> ; <code> ~, the commands that set or query the
    terminal's modifyOtherKeys mode and its version (XTVERSION), and the two
    report messages the terminal's answers become. */
module XTerm {
  import opened GoRunes
  import opened Keys

  /** The messages this part of the runtime produces or consumes. */
  datatype Msg =
    | KeyPress(key: KeyPressMsg)
      /** Intent: set the terminal's modifyOtherKeys mode (0 disables, 1 and 2 enable). */
    | SetModifyOtherKeys(mode: int)
      /** Intent: ask the terminal for its current modifyOtherKeys mode. */
    | QueryModifyOtherKeys
      /** Intent: ask the terminal for its version. */
    | QueryTerminalVersion
      /** Report: the terminal's current modifyOtherKeys mode. */
    | ModifyOtherKeysReport(reportedMode: int)
      /** Report: the terminal's version, as opaque text (the bytes of a Go string). */
    | TerminalVersionReport(version: seq<Byte>)

  /** A command: a deferred unit of work that yields one message when run. */
  datatype Cmd = Deferred(msg: Msg)

  function Run(c: Cmd): Msg {
    c.msg
  }

  predicate IsIntent(m: Msg) {
    m.SetModifyOtherKeys? || m.QueryModifyOtherKeys? || m.QueryTerminalVersion?
  }

  predicate IsReport(m: Msg) {
    m.ModifyOtherKeysReport? || m.TerminalVersionReport?
  }

  /** The command that enables modifyOtherKeys in the given mode. */
  function EnableModifyOtherKeys(mode: int): (c: Cmd)
    ensures IsIntent(Run(c)) && Run(c).SetModifyOtherKeys? && Run(c).mode == mode
  {
    Deferred(SetModifyOtherKeys(mode))
  }

  /** The message that disables modifyOtherKeys. */
  function DisableModifyOtherKeys(): (m: Msg)
    ensures m == Run(EnableModifyOtherKeys(0))
  {
    SetModifyOtherKeys(0)
  }

  /** The query for the terminal's modifyOtherKeys mode. */
  function ModifyOtherKeys(): (m: Msg)
    ensures IsIntent(m) && !m.SetModifyOtherKeys? && m != TerminalVersion()
  {
    QueryModifyOtherKeys
  }

  /** The query for the terminal's version. */
  function TerminalVersion(): (m: Msg)
    ensures IsIntent(m) && !m.SetModifyOtherKeys?
  {
    QueryTerminalVersion
  }

  /** The report of the terminal's modifyOtherKeys mode. */
  function ModifyOtherKeysMsg(mode: int): (m: Msg)
    ensures IsReport(m) && !IsIntent(m) && m.ModifyOtherKeysReport? && m.reportedMode == mode
  {
    ModifyOtherKeysReport(mode)
  }

  /** The report of the terminal's version. */
  function TerminalVersionMsg(version: seq<Byte>): (m: Msg)
    ensures IsReport(m) && !IsIntent(m) && m.TerminalVersionReport? && m.version == version
  {
    TerminalVersionReport(version)
  }

  /** Running the enable command yields the set-mode intent with the mode unchanged,
      and disabling is the same message as enabling mode 0. */
  lemma EnableDisable(mode: int)
    ensures Run(EnableModifyOtherKeys(mode)) == SetModifyOtherKeys(mode)
    ensures IsIntent(Run(EnableModifyOtherKeys(mode)))
    ensures DisableModifyOtherKeys() == Run(EnableModifyOtherKeys(0))
    ensures mode != 0 ==> DisableModifyOtherKeys() != Run(EnableModifyOtherKeys(mode))
  {
  }

  /** The two queries are intents distinct from each other and from every set-mode intent. */
  lemma QueriesAreDistinct(mode: int)
    ensures IsIntent(ModifyOtherKeys()) && IsIntent(TerminalVersion())
    ensures ModifyOtherKeys() != TerminalVersion()
    ensures ModifyOtherKeys() != Run(EnableModifyOtherKeys(mode))
    ensures TerminalVersion() != Run(EnableModifyOtherKeys(mode))
  {
  }

  /** Reports carry their value unchanged, are never intents, and a mode
      report is a different message from the intent to set that mode. */
  lemma ReportsAreNotIntents(mode: int, version: seq<Byte>)
    ensures IsReport(ModifyOtherKeysMsg(mode)) && !IsIntent(ModifyOtherKeysMsg(mode))
    ensures IsReport(TerminalVersionMsg(version)) && !IsIntent(TerminalVersionMsg(version))
    ensures ModifyOtherKeysMsg(mode).reportedMode == mode
    ensures TerminalVersionMsg(version).version == version
    ensures ModifyOtherKeysMsg(mode) != Run(EnableModifyOtherKeys(mode))
  {
  }

  /** Decodes CSI 27 ; modParam ; codeParam ~ into one key press. The
      parameters arrive as machine integers from the control-sequence tokenizer. */
  function ParseXTermModifyOtherKeys(modParam: int, codeParam: int): (m: Msg)
    requires modParam >= 1
    ensures m.KeyPress?
    // the 1-based wire modifier becomes the 0-based modifier set, on every branch
    ensures m.key.mod == modParam - 1
    // a control character never surfaces as a code point; everything else does, unchanged
    ensures m.key.code.RuneCode? <==> !IsControl(ToRune(codeParam))
    ensures m.key.code.RuneCode? ==> m.key.code.r == ToRune(codeParam)
    ensures m.key.code == KeyBackspace <==> (ToRune(codeParam) == BS || ToRune(codeParam) == DEL)
    ensures m.key.code == KeyTab <==> ToRune(codeParam) == HT
    ensures m.key.code == KeyEnter <==> ToRune(codeParam) == CR
    ensures m.key.code == KeyEscape <==> ToRune(codeParam) == ESC
    // literal text only for a code point with no modifier beyond Shift
    ensures m.key.text != [] <==> (m.key.code.RuneCode? && m.key.mod <= ModShift)
    // (by RuneString's contract, such text decodes as UTF-8 to the rune when it is a scalar value)
    ensures m.key.text != [] ==> m.key.text == RuneString(ToRune(codeParam))
  {
    var mod: KeyMod := modParam - 1;
    var r := ToRune(codeParam);
    if r == BS then KeyPress(KeyPressMsg(mod, KeyBackspace, []))
    else if r == HT then KeyPress(KeyPressMsg(mod, KeyTab, []))
    else if r == CR then KeyPress(KeyPressMsg(mod, KeyEnter, []))
    else if r == ESC then KeyPress(KeyPressMsg(mod, KeyEscape, []))
    else if r == DEL then KeyPress(KeyPressMsg(mod, KeyBackspace, []))
    else
      var k := KeyPressMsg(mod, RuneCode(r), []);
      if k.mod <= ModShift then KeyPress(k.(text := RuneString(r))) else KeyPress(k)
  }

  /** The canonical report (modifier+1, code) that decodes to a key press:
      the inverse of the decoder, with Backspace written as BS. */
  function ReportParams(k: KeyPressMsg): (p: (int, int))
    ensures p.0 >= 1 && p.0 - 1 == k.mod
    ensures !k.code.RuneCode? ==> IsControl(p.1) && p.1 != DEL
    ensures Decodable(k) ==> (IsControl(p.1) <==> !k.code.RuneCode?)
  {
    var code := match k.code
      case RuneCode(r) => r
      case KeyBackspace => BS
      case KeyTab => HT
      case KeyEnter => CR
      case KeyEscape => ESC;
    (k.mod + 1, code)
  }

  /** The key presses the decoder can produce: a symbolic key without text, or
      a non-control rune whose text is present exactly up to Shift. */
  predicate Decodable(k: KeyPressMsg) {
    match k.code
    case RuneCode(r) =>
      IsRune(r) && !IsControl(r) && k.text == (if k.mod <= ModShift then RuneString(r) else [])
    case _ => k.text == []
  }

  /** The code the decoder actually distinguishes: the rune of the parameter,
      with DEL folded onto BS. */
  function CanonicalCode(codeParam: int): (c: int)
    ensures IsRune(c) && c != DEL
    ensures c == ToRune(codeParam) || (ToRune(codeParam) == DEL && c == BS)
  {
    var r := ToRune(codeParam);
    if r == DEL then BS else r
  }

  /** Every decodable key press survives encoding and decoding unchanged. */
  lemma DecodeReport(k: KeyPressMsg)
    requires Decodable(k)
    ensures ParseXTermModifyOtherKeys(ReportParams(k).0, ReportParams(k).1) == KeyPress(k)
  {
  }

  /** Every decoded key press is decodable, and re-encoding it gives back the
      report up to the low 32 bits of the code and the DEL/BS conflation. */
  lemma ReportDecode(modParam: int, codeParam: int)
    requires modParam >= 1
    ensures Decodable(ParseXTermModifyOtherKeys(modParam, codeParam).key)
    ensures ReportParams(ParseXTermModifyOtherKeys(modParam, codeParam).key)
      == (modParam, CanonicalCode(codeParam))
  {
  }

  /** Two reports decode to the same key press exactly when they carry the same
      modifier and the same canonical code: the only codes the decoder merges
      are BS with DEL and integers equal in their low 32 bits. */
  lemma DecodeInjective(m1: int, c1: int, m2: int, c2: int)
    requires m1 >= 1 && m2 >= 1
    ensures ParseXTermModifyOtherKeys(m1, c1) == ParseXTermModifyOtherKeys(m2, c2)
      <==> (m1 == m2 && CanonicalCode(c1) == CanonicalCode(c2))
  {
    ReportDecode(m1, c1);
    ReportDecode(m2, c2);
  }

  /** The decoder reads only the low 32 bits of the code parameter. */
  lemma DecodeLow32(modParam: int, codeParam: int, k: int)
    requires modParam >= 1
    ensures ParseXTermModifyOtherKeys(modParam, codeParam + k * RuneModulus)
      == ParseXTermModifyOtherKeys(modParam, codeParam)
  {
    ToRuneShift(codeParam, k);
  }

  /** CSI 27;1;13~ is Enter with no modifiers and no text. */
  lemma EnterScenario()
    ensures ParseXTermModifyOtherKeys(1, 13) == KeyPress(KeyPressMsg(0, KeyEnter, []))
  {
  }

  /** CSI 27;5;97~ is 'a' with modifier value 4 (Ctrl) and, beyond Shift, no text. */
  lemma CtrlLetterScenario()
    ensures ParseXTermModifyOtherKeys(5, 97) == KeyPress(KeyPressMsg(4, RuneCode(97), []))
  {
  }

  /** CSI 27;1;97~ and CSI 27;2;97~ type the text "a"; CSI 27;1;233~ types
      the two UTF-8 bytes of U+00E9. */
  lemma PlainLetterScenario()
    ensures ParseXTermModifyOtherKeys(1, 97) == KeyPress(KeyPressMsg(0, RuneCode(97), [97]))
    ensures ParseXTermModifyOtherKeys(2, 97) == KeyPress(KeyPressMsg(1, RuneCode(97), [97]))
    ensures ParseXTermModifyOtherKeys(1, 233) == KeyPress(KeyPressMsg(0, RuneCode(233), [0xC3, 0xA9]))
  {
  }

  /** CSI 27;1;55296~ carries the surrogate U+D800, which is not a scalar
      value, so its text is the UTF-8 of U+FFFD, as Go's string(r) gives. */
  lemma SurrogateScenario()
    ensures ParseXTermModifyOtherKeys(1, 0xD800) == KeyPress(KeyPressMsg(0, RuneCode(0xD800), [0xEF, 0xBF, 0xBD]))
  {
  }

  /** CSI 27;3;127~ (Alt+DEL) is Alt+Backspace, exactly as CSI 27;3;8~ is. */
  lemma DeleteScenario()
    ensures ParseXTermModifyOtherKeys(3, 127) == KeyPress(KeyPressMsg(2, KeyBackspace, []))
    ensures ParseXTermModifyOtherKeys(3, 127) == ParseXTermModifyOtherKeys(3, 8)
  {
  }
}
