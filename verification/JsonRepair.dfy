/**
 * The repair the agent builder applies to almost-JSON: raw newlines, carriage returns and
 * tabs inside string literals become their escapes.  The repaired text is judged by a
 * tokenizer for section 7 of RFC 8259 that knows nothing about the repair.
 */
module JsonRepair {

  import opened Wrappers

  // ---------- The repair ----------

  /** The scanner's two flags, `inString` and `escaped`. */
  datatype Mode = Outside | InString | Escaped

  function Next(mode: Mode, c: char): Mode {
    match mode
    case Outside => if c == '"' then InString else Outside
    case Escaped => InString
    case InString => if c == '\\' then Escaped else if c == '"' then Outside else InString
  }

  predicate RawControl(c: char) { c == '\n' || c == '\r' || c == '\t' }

  function RepairChar(mode: Mode, c: char): string {
    if mode == InString && RawControl(c) then
      (if c == '\n' then "\\n" else if c == '\r' then "\\r" else "\\t")
    else [c]
  }

  function RepairFrom(mode: Mode, text: string): string
    decreases |text|
  {
    if text == [] then [] else RepairChar(mode, text[0]) + RepairFrom(Next(mode, text[0]), text[1..])
  }

  function Repair(text: string): string { RepairFrom(Outside, text) }

  function ModeOf(inString: bool, escaped: bool): Mode {
    if !inString then Outside else if escaped then Escaped else InString
  }

  /** One character of `escapeJsonStringControlCharacters`, its loop body. */
  method ScanCharacter(character: char, inString: bool, escaped: bool)
    returns (emitted: string, inString': bool, escaped': bool)
    requires escaped ==> inString
    ensures escaped' ==> inString'
    ensures emitted == RepairChar(ModeOf(inString, escaped), character)
    ensures ModeOf(inString', escaped') == Next(ModeOf(inString, escaped), character)
  {
    emitted, inString', escaped' := [character], inString, escaped;
    if !inString {
      if character == '"' { inString' := true; }
    } else if escaped {
      escaped' := false;
    } else if character == '\\' {
      escaped' := true;
    } else if character == '"' {
      inString' := false;
    } else if character == '\n' {
      emitted := "\\n";
    } else if character == '\r' {
      emitted := "\\r";
    } else if character == '\t' {
      emitted := "\\t";
    }
  }

  /** `escapeJsonStringControlCharacters`. */
  method EscapeJsonStringControlCharacters(value: string) returns (result: string)
    ensures result == Repair(value)
  {
    result := [];
    var inString, escaped := false, false;
    assert value[0..] == value;
    for i := 0 to |value|
      invariant escaped ==> inString
      invariant result + RepairFrom(ModeOf(inString, escaped), value[i..]) == Repair(value)
    {
      assert value[i..][1..] == value[i + 1..];
      var emitted;
      emitted, inString, escaped := ScanCharacter(value[i], inString, escaped);
      result := result + emitted;
    }
  }

  // ---------- The reference tokenizer ----------

  /** A string literal by the code units it denotes, or any character outside strings. */
  datatype Token = Literal(units: seq<int>) | Other(c: char)

  function HexValue(c: char): Option<nat> {
    if '0' <= c <= '9' then Some(c as int - '0' as int)
    else if 'a' <= c <= 'f' then Some(c as int - 'a' as int + 10)
    else if 'A' <= c <= 'F' then Some(c as int - 'A' as int + 10)
    else None
  }

  /** `n` hexadecimal digits: their value after `acc`, and the text behind them. */
  function TakeHex(n: nat, acc: nat, text: string): Option<(nat, string)> {
    if n == 0 then Some((acc, text))
    else if text == [] || HexValue(text[0]).None? then None
    else TakeHex(n - 1, acc * 16 + HexValue(text[0]).value, text[1..])
  }

  function SimpleEscape(c: char): Option<int> {
    match c
    case '"' => Some('"' as int)
    case '\\' => Some('\\' as int)
    case '/' => Some('/' as int)
    case 'b' => Some(8)
    case 'f' => Some(12)
    case 'n' => Some('\n' as int)
    case 'r' => Some('\r' as int)
    case 't' => Some('\t' as int)
    case _ => None
  }

  /** What follows a backslash: the unit it denotes and the text behind it. */
  function LexEscape(text: string): Option<(int, string)> {
    if text == [] then None
    else if text[0] == 'u' then TakeHex(4, 0, text[1..])
    else if SimpleEscape(text[0]).Some? then Some((SimpleEscape(text[0]).value, text[1..]))
    else None
  }

  lemma {:induction false} TakeHexShortens(n: nat, acc: nat, text: string)
    ensures TakeHex(n, acc, text).Some? ==> |TakeHex(n, acc, text).value.1| <= |text|
  {
    if n > 0 && text != [] && HexValue(text[0]).Some? {
      TakeHexShortens(n - 1, acc * 16 + HexValue(text[0]).value, text[1..]);
    }
  }

  /** The rest of a string literal after its opening quote.  Strictly, no character below
      U+0020 may stand in it; leniently, a raw newline, return or tab denotes itself. */
  function LexString(text: string, lenient: bool): (r: Option<(seq<int>, string)>)
    ensures r.Some? ==> |r.value.1| < |text|
    decreases |text|
  {
    if text == [] then None
    else if text[0] == '"' then Some(([], text[1..]))
    else
      var unit :=
        if text[0] == '\\' then LexEscape(text[1..])
        else if text[0] < ' ' && !(lenient && (text[0] == '\n' || text[0] == '\r' || text[0] == '\t')) then None
        else Some((text[0] as int, text[1..]));
      if unit.None? then None
      else
        TakeHexShortens(4, 0, if |text| > 2 then text[2..] else []);
        var rest := LexString(unit.value.1, lenient);
        if rest.None? then None else Some(([unit.value.0] + rest.value.0, rest.value.1))
  }

  function Lex(text: string, lenient: bool): Option<seq<Token>>
    decreases |text|
  {
    if text == [] then Some([])
    else if text[0] != '"' then
      var rest := Lex(text[1..], lenient);
      if rest.None? then None else Some([Other(text[0])] + rest.value)
    else
      var literal := LexString(text[1..], lenient);
      if literal.None? then None
      else
        var rest := Lex(literal.value.1, lenient);
        if rest.None? then None else Some([Literal(literal.value.0)] + rest.value)
  }

  // ---------- Scanner and tokenizer stay in step ----------

  lemma {:induction false} HexInStep(n: nat, acc: nat, text: string)
    ensures var read := TakeHex(n, acc, text);
            TakeHex(n, acc, RepairFrom(InString, text)) ==
            if read.None? then None else Some((read.value.0, RepairFrom(InString, read.value.1)))
  {
    if n > 0 && text != [] {
      var repaired := RepairFrom(InString, text);
      assert repaired == RepairChar(InString, text[0]) + RepairFrom(Next(InString, text[0]), text[1..]);
      assert repaired[0] == text[0] || (RawControl(text[0]) && repaired[0] == '\\');
      if HexValue(text[0]).Some? {
        assert repaired[1..] == RepairFrom(InString, text[1..]);
        HexInStep(n - 1, acc * 16 + HexValue(text[0]).value, text[1..]);
      }
    }
  }

  lemma {:induction false} StringInStep(text: string)
    ensures var read := LexString(text, true);
            LexString(RepairFrom(InString, text), false) ==
            if read.None? then None else Some((read.value.0, RepairFrom(Outside, read.value.1)))
    decreases |text|
  {
    if text == [] { return; }
    var c, repaired := text[0], RepairFrom(InString, text);
    if c == '\\' {
      assert repaired[1..] == RepairFrom(Escaped, text[1..]);
      EscapeInStep(text[1..]);
      var escape := LexEscape(text[1..]);
      if escape.Some? {
        if |text| > 2 { TakeHexShortens(4, 0, text[2..]); }
        StringInStep(escape.value.1);
      }
    } else if c == '"' {
      assert repaired[1..] == RepairFrom(Outside, text[1..]);
    } else if RawControl(c) {
      assert repaired[2..] == RepairFrom(InString, text[1..]);
      assert repaired[1..][1..] == repaired[2..];
      StringInStep(text[1..]);
    } else {
      assert repaired[1..] == RepairFrom(InString, text[1..]);
      StringInStep(text[1..]);
    }
  }

  lemma EscapeInStep(text: string)
    ensures var read := LexEscape(text);
            LexEscape(RepairFrom(Escaped, text)) ==
            if read.None? then None else Some((read.value.0, RepairFrom(InString, read.value.1)))
  {
    if text != [] {
      assert RepairFrom(Escaped, text)[1..] == RepairFrom(InString, text[1..]);
      HexInStep(4, 0, text[1..]);
    }
  }

  /** Repair preserves meaning, on every text: the strict tokenizer reads in the repaired text
      exactly what the lenient one reads in the original, failures included. */
  lemma {:induction false} RepairPreservesMeaning(text: string)
    ensures Lex(Repair(text), false) == Lex(text, true)
    decreases |text|
  {
    if text != [] {
      assert Repair(text)[0] == text[0];
      assert Repair(text)[1..] == RepairFrom(Next(Outside, text[0]), text[1..]);
      if text[0] == '"' {
        StringInStep(text[1..]);
        var literal := LexString(text[1..], true);
        if literal.Some? { RepairPreservesMeaning(literal.value.1); }
      } else {
        RepairPreservesMeaning(text[1..]);
      }
    }
  }

  // ---------- When repair does nothing ----------

  function ModeAfter(mode: Mode, text: string): Mode
    decreases |text|
  {
    if text == [] then mode else ModeAfter(Next(mode, text[0]), text[1..])
  }

  /** No raw newline, return or tab stands inside a string literal, outside an escape. */
  ghost predicate NoRawControl(mode: Mode, text: string) {
    forall k :: 0 <= k < |text| && ModeAfter(mode, text[..k]) == InString ==> text[k] !in "\n\r\t"
  }

  lemma {:induction false} NoRawControlCons(mode: Mode, text: string)
    requires text != []
    ensures NoRawControl(mode, text) <==>
            !(mode == InString && RawControl(text[0])) && NoRawControl(Next(mode, text[0]), text[1..])
  {
    assert text[..0] == [];
    forall k | 0 < k < |text|
      ensures ModeAfter(mode, text[..k]) == ModeAfter(Next(mode, text[0]), text[1..][..k - 1])
    {
      assert text[..k][1..] == text[1..][..k - 1];
    }
    forall k | 0 <= k < |text| - 1
      ensures ModeAfter(Next(mode, text[0]), text[1..][..k]) == ModeAfter(mode, text[..k + 1])
    {
      assert text[..k + 1][1..] == text[1..][..k];
    }
    if NoRawControl(mode, text) {
      forall k | 0 <= k < |text[1..]| && ModeAfter(Next(mode, text[0]), text[1..][..k]) == InString
        ensures text[1..][k] !in "\n\r\t"
      {
        assert ModeAfter(mode, text[..k + 1]) == InString;
      }
    }
  }

  lemma {:induction false} RepairLength(mode: Mode, text: string)
    ensures |RepairFrom(mode, text)| >= |text|
    ensures |RepairFrom(mode, text)| == |text| <==> NoRawControl(mode, text)
    ensures NoRawControl(mode, text) ==> RepairFrom(mode, text) == text
    decreases |text|
  {
    if text != [] {
      RepairLength(Next(mode, text[0]), text[1..]);
      NoRawControlCons(mode, text);
    }
  }

  lemma {:induction false} RepairLeavesNoRawControl(mode: Mode, text: string)
    ensures NoRawControl(mode, RepairFrom(mode, text))
    decreases |text|
  {
    if text != [] {
      var repaired := RepairFrom(mode, text);
      var rest := RepairFrom(Next(mode, text[0]), text[1..]);
      RepairLeavesNoRawControl(Next(mode, text[0]), text[1..]);
      NoRawControlCons(mode, repaired);
      if mode == InString && RawControl(text[0]) {
        assert repaired[1..][1..] == rest;
        NoRawControlCons(Escaped, repaired[1..]);
      } else {
        assert repaired[1..] == rest;
      }
    }
  }

  /** Repair is the identity exactly on texts with no raw control character in a string, and
      so repairing twice is repairing once. */
  lemma RepairIsIdentityIffClean(text: string)
    ensures Repair(text) == text <==> NoRawControl(Outside, text)
    ensures Repair(Repair(text)) == Repair(text)
  {
    RepairLength(Outside, text);
    RepairLeavesNoRawControl(Outside, text);
    RepairLength(Outside, Repair(text));
  }

  // ---------- Strictly correct text is never touched ----------

  /** The repair copies `text` up to its suffix `rest`, entering it in mode `mode'`. */
  ghost predicate Copies(mode: Mode, text: string, mode': Mode, rest: string) {
    && |rest| <= |text|
    && text[|text| - |rest|..] == rest
    && RepairFrom(mode, text) == text[..|text| - |rest|] + RepairFrom(mode', rest)
  }

  lemma CopiesOne(mode: Mode, text: string)
    requires text != [] && !(mode == InString && RawControl(text[0]))
    ensures Copies(mode, text, Next(mode, text[0]), text[1..])
  {
    assert text[..1] == [text[0]];
  }

  lemma CopiesJoin(m0: Mode, t0: string, m1: Mode, t1: string, m2: Mode, t2: string)
    requires Copies(m0, t0, m1, t1) && Copies(m1, t1, m2, t2)
    ensures Copies(m0, t0, m2, t2)
  {
    assert t0[|t0| - |t2|..] == t0[|t0| - |t1|..][|t1| - |t2|..];
    assert t0[..|t0| - |t2|] == t0[..|t0| - |t1|] + t1[..|t1| - |t2|];
  }

  lemma {:induction false} HexIsPlain(n: nat, acc: nat, text: string)
    requires TakeHex(n, acc, text).Some?
    ensures n <= |text| && TakeHex(n, acc, text).value.1 == text[n..]
    ensures forall k :: 0 <= k < n ==> HexValue(text[k]).Some?
  {
    if n > 0 {
      HexIsPlain(n - 1, acc * 16 + HexValue(text[0]).value, text[1..]);
      assert forall k :: 0 < k < n ==> text[k] == text[1..][k - 1];
    }
  }

  /** Characters that mean nothing to the scanner are copied. */
  lemma PlainUntouched(text: string, n: nat)
    requires n <= |text| && forall k :: 0 <= k < n ==> HexValue(text[k]).Some?
    ensures Copies(InString, text, InString, text[n..])
  {
    var k := 0;
    assert text[0..] == text && text[..0] == [];
    while k < n
      invariant k <= n && Copies(InString, text, InString, text[k..])
    {
      CopiesOne(InString, text[k..]);
      assert text[k..][1..] == text[k + 1..];
      CopiesJoin(InString, text, InString, text[k..], InString, text[k + 1..]);
      k := k + 1;
    }
  }

  lemma StrictEscapeUntouched(text: string)
    requires LexEscape(text).Some?
    ensures Copies(Escaped, text, InString, LexEscape(text).value.1)
  {
    CopiesOne(Escaped, text);
    if text[0] == 'u' {
      var rest := LexEscape(text).value.1;
      HexIsPlain(4, 0, text[1..]);
      PlainUntouched(text[1..], 4);
      CopiesJoin(Escaped, text, InString, text[1..], InString, rest);
    }
  }

  lemma {:induction false} StrictStringUntouched(text: string)
    requires LexString(text, false).Some?
    ensures Copies(InString, text, Outside, LexString(text, false).value.1)
    decreases |text|
  {
    var end := LexString(text, false).value.1;
    CopiesOne(InString, text);
    if text[0] == '\\' {
      var rest := LexEscape(text[1..]).value.1;
      StrictEscapeUntouched(text[1..]);
      CopiesJoin(InString, text, Escaped, text[1..], InString, rest);
      StrictStringUntouched(rest);
      CopiesJoin(InString, text, InString, rest, Outside, end);
    } else if text[0] != '"' {
      StrictStringUntouched(text[1..]);
      CopiesJoin(InString, text, InString, text[1..], Outside, end);
    }
  }

  /** Text a strict tokenizer already accepts is returned unchanged. */
  lemma {:induction false} StrictTextUntouched(text: string)
    requires Lex(text, false).Some?
    ensures Copies(Outside, text, Outside, []) && Repair(text) == text
    decreases |text|
  {
    if text != [] {
      CopiesOne(Outside, text);
      if text[0] == '"' {
        var rest := LexString(text[1..], false).value.1;
        StrictStringUntouched(text[1..]);
        CopiesJoin(Outside, text, InString, text[1..], Outside, rest);
        StrictTextUntouched(rest);
        CopiesJoin(Outside, text, Outside, rest, Outside, []);
      } else {
        StrictTextUntouched(text[1..]);
        CopiesJoin(Outside, text, Outside, text[1..], Outside, []);
      }
    }
    assert text[..|text|] == text;
  }
}
