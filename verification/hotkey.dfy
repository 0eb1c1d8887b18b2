/** The overlay-toggle hotkey syntax of src/hotkey.rs: `parse_hotkey` splits
    a string such as "Ctrl+Shift+O" on '+', trims and upper-cases each
    token, collects modifier tokens into a flag set and parses every other
    token as a key code, the last one winning. */
module Hotkey {
  import opened Wrappers
  import opened Ascii

  /** The keys `parse_key_code` knows. */
  datatype Code =
    | FKey(n: nat)
    | Letter(c: char)
    | Digit(d: nat)
    | Space | Enter | Tab | Escape | Backspace | Delete | Insert
    | Home | End | PageUp | PageDown
    | ArrowUp | ArrowDown | ArrowLeft | ArrowRight
    | Numpad(d: nat)

  predicate ValidCode(c: Code)
  {
    match c
    case FKey(n) => 1 <= n <= 12
    case Letter(ch) => IsUpper(ch)
    case Digit(d) => d < 10
    case Numpad(d) => d < 10
    case _ => true
  }

  datatype Modifiers = Modifiers(control: bool, shift: bool, alt: bool, super: bool)

  const NoModifiers := Modifiers(false, false, false, false)

  datatype HotKey = HotKey(mods: Modifiers, code: Code)

  predicate IsDigitChar(c: char) { '0' <= c <= '9' }

  function DigitOf(c: char): nat
    requires IsDigitChar(c)
  {
    c as int - '0' as int
  }

  function DigitChar(d: nat): char
    requires d < 10
  {
    ('0' as int + d) as char
  }

  /** The number after "F" in "F1" .. "F12". */
  function FunctionNumber(s: string): (r: Option<nat>)
    ensures r.Some? ==> 1 <= r.value <= 12
  {
    if |s| == 1 && '1' <= s[0] <= '9' then Some(DigitOf(s[0]))
    else if s == "10" then Some(10)
    else if s == "11" then Some(11)
    else if s == "12" then Some(12)
    else None
  }

  /** The named keys and their aliases. */
  function NamedKey(s: string): (r: Option<Code>)
    ensures r.Some? ==> 2 <= |s| <= 9
  {
    if s == "SPACE" then Some(Space)
    else if s == "ENTER" || s == "RETURN" then Some(Enter)
    else if s == "TAB" then Some(Tab)
    else if s == "ESCAPE" || s == "ESC" then Some(Escape)
    else if s == "BACKSPACE" then Some(Backspace)
    else if s == "DELETE" || s == "DEL" then Some(Delete)
    else if s == "INSERT" || s == "INS" then Some(Insert)
    else if s == "HOME" then Some(Home)
    else if s == "END" then Some(End)
    else if s == "PAGEUP" || s == "PGUP" then Some(PageUp)
    else if s == "PAGEDOWN" || s == "PGDN" then Some(PageDown)
    else if s == "UP" then Some(ArrowUp)
    else if s == "DOWN" then Some(ArrowDown)
    else if s == "LEFT" then Some(ArrowLeft)
    else if s == "RIGHT" then Some(ArrowRight)
    else None
  }

  /** `parse_key_code` on an upper-cased token. The match arms of the
      source are disjoint string patterns, so their order does not matter;
      the named keys are tried first here. */
  function ParseKeyCode(key: string): (r: Result<Code>)
    ensures r.Ok? ==> ValidCode(r.value)
    ensures r.Err? ==> r.msg == "Unknown key code: " + key
  {
    if NamedKey(key).Some? then Ok(NamedKey(key).value)
    else if |key| == 1 && IsUpper(key[0]) then Ok(Letter(key[0]))
    else if |key| == 1 && IsDigitChar(key[0]) then Ok(Digit(DigitOf(key[0])))
    else if |key| >= 2 && key[0] == 'F' && FunctionNumber(key[1..]).Some? then Ok(FKey(FunctionNumber(key[1..]).value))
    else if |key| == 7 && key[..6] == "NUMPAD" && IsDigitChar(key[6]) then Ok(Numpad(DigitOf(key[6])))
    else if |key| == 4 && key[..3] == "NUM" && IsDigitChar(key[3]) then Ok(Numpad(DigitOf(key[3])))
    else Err("Unknown key code: " + key)
  }

  /** Every spelling `parse_key_code` accepts for a key. */
  function Names(c: Code): set<string>
    requires ValidCode(c)
  {
    match c
    case FKey(n) => if n < 10 then {"F" + [DigitChar(n)]} else {"F1" + [DigitChar(n - 10)]}
    case Letter(ch) => {[ch]}
    case Digit(d) => {[DigitChar(d)]}
    case Space => {"SPACE"}
    case Enter => {"ENTER", "RETURN"}
    case Tab => {"TAB"}
    case Escape => {"ESCAPE", "ESC"}
    case Backspace => {"BACKSPACE"}
    case Delete => {"DELETE", "DEL"}
    case Insert => {"INSERT", "INS"}
    case Home => {"HOME"}
    case End => {"END"}
    case PageUp => {"PAGEUP", "PGUP"}
    case PageDown => {"PAGEDOWN", "PGDN"}
    case ArrowUp => {"UP"}
    case ArrowDown => {"DOWN"}
    case ArrowLeft => {"LEFT"}
    case ArrowRight => {"RIGHT"}
    case Numpad(d) => {"NUMPAD" + [DigitChar(d)], "NUM" + [DigitChar(d)]}
  }

  /** A token parses to a key exactly when it is one of that key's
      spellings. */
  lemma ParseKeyCodeNames(s: string, c: Code)
    ensures ParseKeyCode(s) == Ok(c) <==> ValidCode(c) && s in Names(c)
  {
    if ParseKeyCode(s) == Ok(c) {
      ParsedIsNamed(s);
    }
    if ValidCode(c) && s in Names(c) {
      NamedIsParsed(s, c);
    }
  }

  lemma ParsedIsNamed(s: string)
    requires ParseKeyCode(s).Ok?
    ensures s in Names(ParseKeyCode(s).value)
  {
    if NamedKey(s).Some? {
      NamedKeyNames(s);
    } else if |s| == 1 && IsUpper(s[0]) {
      assert s == [s[0]];
    } else if |s| == 1 && IsDigitChar(s[0]) {
      assert s == [DigitChar(DigitOf(s[0]))];
    } else if |s| >= 2 && s[0] == 'F' && FunctionNumber(s[1..]).Some? {
      var n := FunctionNumber(s[1..]).value;
      if |s| == 2 {
        assert s == "F" + [DigitChar(n)];
      } else {
        assert s == "F1" + [DigitChar(n - 10)];
      }
    } else if |s| == 7 && s[..6] == "NUMPAD" && IsDigitChar(s[6]) {
      assert s == s[..6] + [s[6]];
      assert s == "NUMPAD" + [DigitChar(DigitOf(s[6]))];
    } else if |s| == 4 && s[..3] == "NUM" && IsDigitChar(s[3]) {
      assert s[0] == s[..3][0] == 'N';
      assert s == s[..3] + [s[3]];
      assert s == "NUM" + [DigitChar(DigitOf(s[3]))];
    }
  }

  lemma NamedIsParsed(s: string, c: Code)
    requires ValidCode(c) && s in Names(c)
    ensures ParseKeyCode(s) == Ok(c)
  {
    match c
    case FKey(n) => FKeyIsParsed(s, n);
    case Numpad(d) => NumpadIsParsed(s, d);
    case Letter(_) =>
    case Digit(_) =>
    case _ => NamedKeyIsParsed(s, c);
  }

  lemma FKeyIsParsed(s: string, n: nat)
    requires 1 <= n <= 12 && s in Names(FKey(n))
    ensures ParseKeyCode(s) == Ok(FKey(n))
  {
    if n < 10 {
      assert s[1..] == [DigitChar(n)];
    } else if n == 10 {
      assert s[1..] == "10";
    } else if n == 11 {
      assert s[1..] == "11";
    } else {
      assert s[1..] == "12";
    }
  }

  lemma NumpadIsParsed(s: string, d: nat)
    requires d < 10 && s in Names(Numpad(d))
    ensures ParseKeyCode(s) == Ok(Numpad(d))
  {
    if s == "NUMPAD" + [DigitChar(d)] {
      assert s[..6] == "NUMPAD";
    } else {
      assert s[..3] == "NUM";
    }
  }

  lemma NamedKeyIsParsed(s: string, c: Code)
    requires ValidCode(c) && s in Names(c)
    requires !c.FKey? && !c.Numpad? && !c.Letter? && !c.Digit?
    ensures ParseKeyCode(s) == Ok(c)
  {
    if c.Space? || c.Enter? || c.Tab? || c.Escape? || c.Backspace? || c.Delete? || c.Insert? {
      EditingKeyIsParsed(s, c);
    } else if c.Home? || c.End? || c.PageUp? || c.PageDown? {
      NavigationKeyIsParsed(s, c);
    } else {
      ArrowKeyIsParsed(s, c);
    }
  }

  lemma EditingKeyIsParsed(s: string, c: Code)
    requires c.Space? || c.Enter? || c.Tab? || c.Escape? || c.Backspace? || c.Delete? || c.Insert?
    requires s in Names(c)
    ensures NamedKey(s) == Some(c)
  {
    match c
    case Space => assert NamedKey("SPACE") == Some(Space);
    case Enter => assert NamedKey("ENTER") == NamedKey("RETURN") == Some(Enter);
    case Tab => assert NamedKey("TAB") == Some(Tab);
    case Escape => assert NamedKey("ESCAPE") == NamedKey("ESC") == Some(Escape);
    case Backspace => assert NamedKey("BACKSPACE") == Some(Backspace);
    case Delete => assert NamedKey("DELETE") == NamedKey("DEL") == Some(Delete);
    case Insert => assert NamedKey("INSERT") == NamedKey("INS") == Some(Insert);
  }

  lemma NavigationKeyIsParsed(s: string, c: Code)
    requires c.Home? || c.End? || c.PageUp? || c.PageDown?
    requires s in Names(c)
    ensures NamedKey(s) == Some(c)
  {
    match c
    case Home => assert NamedKey("HOME") == Some(Home);
    case End => assert NamedKey("END") == Some(End);
    case PageUp => assert NamedKey("PAGEUP") == NamedKey("PGUP") == Some(PageUp);
    case PageDown => assert NamedKey("PAGEDOWN") == NamedKey("PGDN") == Some(PageDown);
  }

  lemma ArrowKeyIsParsed(s: string, c: Code)
    requires c.ArrowUp? || c.ArrowDown? || c.ArrowLeft? || c.ArrowRight?
    requires s in Names(c)
    ensures NamedKey(s) == Some(c)
  {
    match c
    case ArrowUp => assert NamedKey("UP") == Some(ArrowUp);
    case ArrowDown => assert NamedKey("DOWN") == Some(ArrowDown);
    case ArrowLeft => assert NamedKey("LEFT") == Some(ArrowLeft);
    case ArrowRight => assert NamedKey("RIGHT") == Some(ArrowRight);
  }

  /** A named key is found only under one of its spellings. */
  lemma NamedKeyNames(s: string)
    requires NamedKey(s).Some?
    ensures ValidCode(NamedKey(s).value) && s in Names(NamedKey(s).value)
  {
  }

  /** Two spellings of the same key parse alike. */
  lemma KeyAliases(c: Code, a: string, b: string)
    requires ValidCode(c) && a in Names(c) && b in Names(c)
    ensures ParseKeyCode(a) == ParseKeyCode(b) == Ok(c)
  {
    NamedIsParsed(a, c);
    NamedIsParsed(b, c);
  }

  // ---------------------------------------------------------------------
  // The whole string
  // ---------------------------------------------------------------------

  datatype ModifierKind = Control | Shift | Alt | Super

  function ModifierOf(token: string): (r: Option<ModifierKind>)
    ensures r.Some? ==> 3 <= |token| <= 7
  {
    if token == "CTRL" || token == "CONTROL" then Some(Control)
    else if token == "SHIFT" then Some(Shift)
    else if token == "ALT" then Some(Alt)
    else if token == "WIN" || token == "SUPER" || token == "META" then Some(Super)
    else None
  }

  function AddModifier(m: Modifiers, k: ModifierKind): Modifiers
  {
    match k
    case Control => m.(control := true)
    case Shift => m.(shift := true)
    case Alt => m.(alt := true)
    case Super => m.(super := true)
  }

  /** Whether the flag for `k` is set. */
  function Flag(m: Modifiers, k: ModifierKind): bool
  {
    match k
    case Control => m.control
    case Shift => m.shift
    case Alt => m.alt
    case Super => m.super
  }

  /** The tokens of a hotkey string: split on '+', trimmed, upper-cased. */
  function Tokens(s: string): (r: seq<string>)
    ensures |r| == |Split(s, '+')|
    ensures forall i :: 0 <= i < |r| ==> r[i] == UpperStr(Trim(Split(s, '+')[i]))
  {
    var parts := Split(s, '+');
    seq(|parts|, i requires 0 <= i < |parts| => UpperStr(Trim(parts[i])))
  }

  /** The tokens that are not modifiers, in order. */
  function KeyTokens(tokens: seq<string>): (r: seq<string>)
    ensures forall t :: t in r <==> t in tokens && ModifierOf(t).None?
    ensures |r| == 0 <==> forall i :: 0 <= i < |tokens| ==> ModifierOf(tokens[i]).Some?
  {
    assert forall i :: 1 <= i < |tokens| ==> tokens[i] == tokens[1..][i - 1];
    if |tokens| == 0 then []
    else if ModifierOf(tokens[0]).None? then [tokens[0]] + KeyTokens(tokens[1..])
    else KeyTokens(tokens[1..])
  }

  /** The loop of `parse_hotkey`: modifiers accumulate, each key token
      replaces the key, and the first unknown key ends the loop with its
      error. */
  function Scan(tokens: seq<string>, mods: Modifiers, key: Option<Code>, parse: string -> Result<Code>): Result<(Modifiers, Option<Code>)>
    decreases |tokens|
  {
    if |tokens| == 0 then Ok((mods, key))
    else
      match ModifierOf(tokens[0])
      case Some(k) => Scan(tokens[1..], AddModifier(mods, k), key, parse)
      case None =>
        match parse(tokens[0])
        case Err(e) => Err(e)
        case Ok(c) => Scan(tokens[1..], mods, Some(c), parse)
  }

  /** The end of `parse_hotkey`: a loop that ended without a key is an
      error. */
  function Finish(r: Result<(Modifiers, Option<Code>)>): Result<HotKey>
  {
    match r
    case Err(e) => Err(e)
    case Ok((mods, None)) => Err("No key code found in hotkey string")
    case Ok((mods, Some(c))) => Ok(HotKey(mods, c))
  }

  /** `parse_hotkey`. */
  function ParseHotkey(s: string): (r: Result<HotKey>)
    ensures r.Ok? ==> ValidCode(r.value.code)
  {
    ScanKeepsValid(Tokens(s), NoModifiers, None, ParseKeyCode);
    Finish(Scan(Tokens(s), NoModifiers, None, ParseKeyCode))
  }

  lemma {:induction false} ScanKeepsValid(tokens: seq<string>, mods: Modifiers, key: Option<Code>, parse: string -> Result<Code>)
    requires key.Some? ==> ValidCode(key.value)
    requires forall t :: parse(t).Ok? ==> ValidCode(parse(t).value)
    ensures var r := Scan(tokens, mods, key, parse);
            r.Ok? && r.value.1.Some? ==> ValidCode(r.value.1.value)
    decreases |tokens|
  {
    if |tokens| > 0 {
      match ModifierOf(tokens[0])
      case Some(k) => ScanKeepsValid(tokens[1..], AddModifier(mods, k), key, parse);
      case None =>
        if parse(tokens[0]).Ok? {
          ScanKeepsValid(tokens[1..], mods, Some(parse(tokens[0]).value), parse);
        }
    }
  }

  /** The loop, described without the loop: it fails exactly when some key
      token is unknown, and then with the first unknown token's error; a
      flag is set exactly when it was set before or some token names it;
      the key is the last key token's, or the one before if there is none. */
  lemma ScanSpec(tokens: seq<string>, mods: Modifiers, key: Option<Code>, parse: string -> Result<Code>)
    ensures var r := Scan(tokens, mods, key, parse);
            r.Ok? <==> forall i :: 0 <= i < |tokens| && ModifierOf(tokens[i]).None? ==> parse(tokens[i]).Ok?
    ensures var r := Scan(tokens, mods, key, parse);
            r.Err? ==> exists i :: (0 <= i < |tokens| && ModifierOf(tokens[i]).None? && parse(tokens[i]).Err?
                                    && r.msg == parse(tokens[i]).msg
                                    && forall j :: 0 <= j < i ==> ModifierOf(tokens[j]).Some? || parse(tokens[j]).Ok?)
    ensures var r := Scan(tokens, mods, key, parse);
            r.Ok? ==> forall k :: Flag(r.value.0, k) <==> Flag(mods, k) || exists i :: 0 <= i < |tokens| && ModifierOf(tokens[i]) == Some(k)
    ensures var r := Scan(tokens, mods, key, parse);
            var keys := KeyTokens(tokens);
            r.Ok? ==> if |keys| == 0 then r.value.1 == key
                      else parse(keys[|keys| - 1]).Ok? && r.value.1 == Some(parse(keys[|keys| - 1]).value)
  {
    ScanOutcome(tokens, mods, key, parse);
    ScanFlags(tokens, mods, key, parse);
    ScanKey(tokens, mods, key, parse);
  }

  lemma ScanOutcome(tokens: seq<string>, mods: Modifiers, key: Option<Code>, parse: string -> Result<Code>)
    ensures var r := Scan(tokens, mods, key, parse);
            r.Ok? <==> forall i :: 0 <= i < |tokens| && ModifierOf(tokens[i]).None? ==> parse(tokens[i]).Ok?
    ensures var r := Scan(tokens, mods, key, parse);
            r.Err? ==> exists i :: (0 <= i < |tokens| && ModifierOf(tokens[i]).None? && parse(tokens[i]).Err?
                                    && r.msg == parse(tokens[i]).msg
                                    && forall j :: 0 <= j < i ==> ModifierOf(tokens[j]).Some? || parse(tokens[j]).Ok?)
  {
    ScanOk(tokens, mods, key, parse);
    ScanErr(tokens, mods, key, parse);
  }

  /** Every key token among `tokens` parses. */
  predicate KeysParse(tokens: seq<string>, parse: string -> Result<Code>)
  {
    forall i :: 0 <= i < |tokens| && ModifierOf(tokens[i]).None? ==> parse(tokens[i]).Ok?
  }

  /** `KeysParse` taken one token at a time. */
  lemma KeysParseStep(tokens: seq<string>, parse: string -> Result<Code>)
    requires |tokens| > 0
    ensures KeysParse(tokens, parse) <==>
            (ModifierOf(tokens[0]).Some? || parse(tokens[0]).Ok?) && KeysParse(tokens[1..], parse)
  {
    var rest := tokens[1..];
    assert forall i :: 1 <= i < |tokens| ==> tokens[i] == rest[i - 1];
  }

  /** The loop succeeds exactly when every key token parses. */
  lemma {:induction false} ScanOk(tokens: seq<string>, mods: Modifiers, key: Option<Code>, parse: string -> Result<Code>)
    ensures Scan(tokens, mods, key, parse).Ok? <==> KeysParse(tokens, parse)
    decreases |tokens|
  {
    if |tokens| > 0 {
      KeysParseStep(tokens, parse);
      if ModifierOf(tokens[0]).Some? {
        ScanSkipStep(tokens, mods, key, parse);
        ScanOk(tokens[1..], AddModifier(mods, ModifierOf(tokens[0]).value), key, parse);
      } else if parse(tokens[0]).Ok? {
        ScanTakeStep(tokens, mods, key, parse);
        ScanOk(tokens[1..], mods, Some(parse(tokens[0]).value), parse);
      }
    }
  }

  /** `tokens[i]` is the first key token that fails to parse. */
  predicate FirstFailure(tokens: seq<string>, parse: string -> Result<Code>, i: int)
  {
    0 <= i < |tokens| && ModifierOf(tokens[i]).None? && parse(tokens[i]).Err?
    && forall j :: 0 <= j < i ==> ModifierOf(tokens[j]).Some? || parse(tokens[j]).Ok?
  }

  /** A first failure after the leading token is one in the whole list when
      the leading token passes. */
  lemma FirstFailureShift(tokens: seq<string>, parse: string -> Result<Code>, i: int)
    requires |tokens| > 0 && (ModifierOf(tokens[0]).Some? || parse(tokens[0]).Ok?)
    requires FirstFailure(tokens[1..], parse, i)
    ensures FirstFailure(tokens, parse, i + 1) && tokens[i + 1] == tokens[1..][i]
  {
    var rest := tokens[1..];
    assert forall j :: 1 <= j < |tokens| ==> tokens[j] == rest[j - 1];
  }

  /** A failing loop carries the error of the first key token that fails. */
  lemma {:induction false} ScanErr(tokens: seq<string>, mods: Modifiers, key: Option<Code>, parse: string -> Result<Code>)
    ensures var r := Scan(tokens, mods, key, parse);
            r.Err? ==> exists i :: FirstFailure(tokens, parse, i) && r.msg == parse(tokens[i]).msg
    decreases |tokens|
  {
    if |tokens| > 0 {
      var r := Scan(tokens, mods, key, parse);
      if ModifierOf(tokens[0]).Some? {
        ScanSkipStep(tokens, mods, key, parse);
        ScanErr(tokens[1..], AddModifier(mods, ModifierOf(tokens[0]).value), key, parse);
        if r.Err? {
          var i :| FirstFailure(tokens[1..], parse, i) && r.msg == parse(tokens[1..][i]).msg;
          FirstFailureShift(tokens, parse, i);
        }
      } else if parse(tokens[0]).Ok? {
        ScanTakeStep(tokens, mods, key, parse);
        ScanErr(tokens[1..], mods, Some(parse(tokens[0]).value), parse);
        if r.Err? {
          var i :| FirstFailure(tokens[1..], parse, i) && r.msg == parse(tokens[1..][i]).msg;
          FirstFailureShift(tokens, parse, i);
        }
      } else {
        assert FirstFailure(tokens, parse, 0);
      }
    }
  }

  /** Adding modifier `k` sets its flag and keeps every other one. */
  lemma AddModifierFlag(m: Modifiers, k: ModifierKind, k': ModifierKind)
    ensures Flag(AddModifier(m, k), k') <==> Flag(m, k') || k' == k
  {
  }

  /** Some token names modifier `k` exactly when the first one does or a
      later one does. */
  lemma NamedIn(tokens: seq<string>, k: ModifierKind)
    requires |tokens| > 0
    ensures (exists i :: 0 <= i < |tokens| && ModifierOf(tokens[i]) == Some(k))
        <==> ModifierOf(tokens[0]) == Some(k) || exists i :: 0 <= i < |tokens[1..]| && ModifierOf(tokens[1..][i]) == Some(k)
  {
    var rest := tokens[1..];
    if exists i :: 0 <= i < |tokens| && ModifierOf(tokens[i]) == Some(k) {
      var i :| 0 <= i < |tokens| && ModifierOf(tokens[i]) == Some(k);
      if i > 0 { assert rest[i - 1] == tokens[i]; }
    }
    if exists i :: 0 <= i < |rest| && ModifierOf(rest[i]) == Some(k) {
      var i :| 0 <= i < |rest| && ModifierOf(rest[i]) == Some(k);
      assert tokens[i + 1] == rest[i];
    }
  }

  lemma {:induction false} ScanFlags(tokens: seq<string>, mods: Modifiers, key: Option<Code>, parse: string -> Result<Code>)
    ensures var r := Scan(tokens, mods, key, parse);
            r.Ok? ==> forall k :: Flag(r.value.0, k) <==> Flag(mods, k) || exists i :: 0 <= i < |tokens| && ModifierOf(tokens[i]) == Some(k)
    decreases |tokens|
  {
    if |tokens| > 0 {
      var rest := tokens[1..];
      if ModifierOf(tokens[0]).Some? {
        var k0 := ModifierOf(tokens[0]).value;
        ScanSkipStep(tokens, mods, key, parse);
        ScanFlags(rest, AddModifier(mods, k0), key, parse);
        forall k ensures (exists i :: 0 <= i < |tokens| && ModifierOf(tokens[i]) == Some(k))
                     <==> ModifierOf(tokens[0]) == Some(k) || exists i :: 0 <= i < |rest| && ModifierOf(rest[i]) == Some(k) {
          NamedIn(tokens, k);
        }
        forall k ensures Flag(AddModifier(mods, k0), k) <==> Flag(mods, k) || k == k0 {
          AddModifierFlag(mods, k0, k);
        }
      } else if parse(tokens[0]).Ok? {
        ScanTakeStep(tokens, mods, key, parse);
        ScanFlags(rest, mods, Some(parse(tokens[0]).value), parse);
        forall k ensures (exists i :: 0 <= i < |tokens| && ModifierOf(tokens[i]) == Some(k))
                     <==> ModifierOf(tokens[0]) == Some(k) || exists i :: 0 <= i < |rest| && ModifierOf(rest[i]) == Some(k) {
          NamedIn(tokens, k);
        }
      }
    }
  }

  lemma {:induction false} ScanKey(tokens: seq<string>, mods: Modifiers, key: Option<Code>, parse: string -> Result<Code>)
    ensures var r := Scan(tokens, mods, key, parse);
            var keys := KeyTokens(tokens);
            r.Ok? ==> if |keys| == 0 then r.value.1 == key
                      else parse(keys[|keys| - 1]).Ok? && r.value.1 == Some(parse(keys[|keys| - 1]).value)
    decreases |tokens|, 1
  {
    if |tokens| > 0 {
      if ModifierOf(tokens[0]).Some? {
        ScanKeySkip(tokens, mods, key, parse);
      } else {
        ScanKeyTake(tokens, mods, key, parse);
      }
    }
  }

  /** One step of the loop over a leading modifier token, and the key
      tokens it leaves. */
  lemma ScanSkipStep(tokens: seq<string>, mods: Modifiers, key: Option<Code>, parse: string -> Result<Code>)
    requires |tokens| > 0 && ModifierOf(tokens[0]).Some?
    ensures Scan(tokens, mods, key, parse) == Scan(tokens[1..], AddModifier(mods, ModifierOf(tokens[0]).value), key, parse)
    ensures KeyTokens(tokens) == KeyTokens(tokens[1..])
  {
  }

  /** One step of the loop over a leading known key token, and the key
      tokens it leaves. */
  lemma ScanTakeStep(tokens: seq<string>, mods: Modifiers, key: Option<Code>, parse: string -> Result<Code>)
    requires |tokens| > 0 && ModifierOf(tokens[0]).None? && parse(tokens[0]).Ok?
    ensures Scan(tokens, mods, key, parse) == Scan(tokens[1..], mods, Some(parse(tokens[0]).value), parse)
    ensures KeyTokens(tokens) == [tokens[0]] + KeyTokens(tokens[1..])
  {
  }

  /** A leading modifier token changes neither the key nor the key tokens. */
  lemma {:induction false} ScanKeySkip(tokens: seq<string>, mods: Modifiers, key: Option<Code>, parse: string -> Result<Code>)
    requires |tokens| > 0 && ModifierOf(tokens[0]).Some?
    ensures var r := Scan(tokens, mods, key, parse);
            var keys := KeyTokens(tokens);
            r.Ok? ==> if |keys| == 0 then r.value.1 == key
                      else parse(keys[|keys| - 1]).Ok? && r.value.1 == Some(parse(keys[|keys| - 1]).value)
    decreases |tokens|, 0
  {
    var k := ModifierOf(tokens[0]).value;
    ScanKey(tokens[1..], AddModifier(mods, k), key, parse);
    ScanSkipStep(tokens, mods, key, parse);
  }

  /** A leading key token is the key unless a later one replaces it. */
  lemma {:induction false} ScanKeyTake(tokens: seq<string>, mods: Modifiers, key: Option<Code>, parse: string -> Result<Code>)
    requires |tokens| > 0 && ModifierOf(tokens[0]).None?
    ensures var r := Scan(tokens, mods, key, parse);
            var keys := KeyTokens(tokens);
            r.Ok? ==> if |keys| == 0 then r.value.1 == key
                      else parse(keys[|keys| - 1]).Ok? && r.value.1 == Some(parse(keys[|keys| - 1]).value)
    decreases |tokens|, 0
  {
    if parse(tokens[0]).Ok? {
      var c := parse(tokens[0]).value;
      ScanKey(tokens[1..], mods, Some(c), parse);
      ScanTakeStep(tokens, mods, key, parse);
      ScanKeyStep(tokens[0], KeyTokens(tokens[1..]), KeyTokens(tokens));
    }
  }

  /** Putting a key token in front changes the last key token only when
      there was none. */
  lemma ScanKeyStep(t: string, keys: seq<string>, all: seq<string>)
    requires all == [t] + keys
    ensures |all| > 0
    ensures all[|all| - 1] == if |keys| == 0 then t else keys[|keys| - 1]
  {
  }

  /** `parse_hotkey`, described through its tokens: it succeeds exactly when
      there is a key token and every key token is known; the modifiers are
      exactly those named, and the key is the last key token's. */
  lemma ParseHotkeySpec(s: string)
    ensures var tokens := Tokens(s);
            var keys := KeyTokens(tokens);
            ParseHotkey(s).Ok? <==> |keys| > 0 && forall t :: t in keys ==> ParseKeyCode(t).Ok?
    ensures var tokens := Tokens(s);
            var keys := KeyTokens(tokens);
            ParseHotkey(s).Ok? ==> && ParseHotkey(s).value.code == ParseKeyCode(keys[|keys| - 1]).value
                                   && forall k :: Flag(ParseHotkey(s).value.mods, k) <==>
                                        exists i :: 0 <= i < |tokens| && ModifierOf(tokens[i]) == Some(k)
  {
    FinishSpec(Tokens(s), ParseKeyCode);
  }

  lemma FinishSpec(tokens: seq<string>, parse: string -> Result<Code>)
    ensures var keys := KeyTokens(tokens);
            var h := Finish(Scan(tokens, NoModifiers, None, parse));
            h.Ok? <==> |keys| > 0 && forall t :: t in keys ==> parse(t).Ok?
    ensures var keys := KeyTokens(tokens);
            var h := Finish(Scan(tokens, NoModifiers, None, parse));
            h.Ok? ==> && h.value.code == parse(keys[|keys| - 1]).value
                      && forall k :: Flag(h.value.mods, k) <==>
                           exists i :: 0 <= i < |tokens| && ModifierOf(tokens[i]) == Some(k)
  {
    ScanSpec(tokens, NoModifiers, None, parse);
    forall t | t in KeyTokens(tokens) ensures exists i :: 0 <= i < |tokens| && tokens[i] == t && ModifierOf(tokens[i]).None? {
      var i :| 0 <= i < |tokens| && tokens[i] == t;
    }
  }

  /** A string of modifiers only is refused. */
  lemma OnlyModifiersFails(s: string)
    requires forall i :: 0 <= i < |Tokens(s)| ==> ModifierOf(Tokens(s)[i]).Some?
    ensures ParseHotkey(s) == Err("No key code found in hotkey string")
  {
    ScanSpec(Tokens(s), NoModifiers, None, ParseKeyCode);
  }

  /** `parse_hotkey` only looks at the tokens. */
  lemma ParseHotkeyOfTokens(s: string, t: seq<string>)
    requires Tokens(s) == t
    ensures ParseHotkey(s) == Finish(Scan(t, NoModifiers, None, ParseKeyCode))
  {
  }

  /** A string without '+' and without white space at its ends is a single
      token. */
  lemma SingleToken(s: string)
    requires '+' !in s
    requires |s| > 0 ==> !IsWhitespace(s[0]) && !IsWhitespace(s[|s| - 1])
    ensures Tokens(s) == [UpperStr(s)]
  {
    SplitNoSep(s, '+');
    TrimUnchanged(s);
  }

  /** A piece without '+' and without white space at its ends. */
  predicate CleanPart(p: string)
  {
    '+' !in p && (|p| > 0 ==> !IsWhitespace(p[0]) && !IsWhitespace(p[|p| - 1]))
  }

  /** Clean pieces joined with '+' are tokenised into their upper-cased
      forms. */
  lemma TokensOfParts(parts: seq<string>)
    requires |parts| >= 1
    requires forall i :: 0 <= i < |parts| ==> CleanPart(parts[i])
    ensures |Tokens(Join(parts, '+'))| == |parts|
    ensures forall i :: 0 <= i < |parts| ==> Tokens(Join(parts, '+'))[i] == UpperStr(parts[i])
  {
    JoinSplit(parts, '+');
    forall i | 0 <= i < |parts| ensures Trim(parts[i]) == parts[i] {
      TrimUnchanged(parts[i]);
    }
  }

  /** Clean pieces joined with '+' tokenise into the given upper-cased
      forms. */
  lemma TokensOfJoin(s: string, parts: seq<string>, ups: seq<string>)
    requires |parts| >= 1 && s == Join(parts, '+')
    requires forall i :: 0 <= i < |parts| ==> CleanPart(parts[i])
    requires |ups| == |parts| && forall i :: 0 <= i < |parts| ==> ups[i] == UpperStr(parts[i])
    ensures Tokens(s) == ups
  {
    TokensOfParts(parts);
  }

  lemma UpperCtrlShift()
    ensures UpperStr("Ctrl") == "CTRL" && UpperStr("Shift") == "SHIFT"
  {
    var c := UpperStr("Ctrl");
    assert ToUpper('t') == 'T' && ToUpper('r') == 'R' && ToUpper('l') == 'L';
    assert c[1] == 'T' && c[2] == 'R' && c[3] == 'L';
    var s := UpperStr("Shift");
    assert ToUpper('h') == 'H' && ToUpper('i') == 'I' && ToUpper('f') == 'F';
    assert s[1] == 'H' && s[2] == 'I' && s[3] == 'F' && s[4] == 'T';
  }

  lemma JoinCtrlShiftO()
    ensures Join(["Ctrl", "Shift", "O"], '+') == "Ctrl+Shift+O"
  {
    var parts := ["Ctrl", "Shift", "O"];
    assert Join(parts[2..], '+') == "O";
    assert Join(parts[1..], '+') == "Shift+O";
  }

  lemma CleanCtrlShiftO()
    ensures CleanPart("Ctrl") && CleanPart("Shift") && CleanPart("O")
  {
  }

  lemma TokensCtrlShiftO()
    ensures Tokens("Ctrl+Shift+O") == ["CTRL", "SHIFT", "O"]
  {
    var parts := ["Ctrl", "Shift", "O"];
    var ups := ["CTRL", "SHIFT", "O"];
    JoinCtrlShiftO();
    CleanCtrlShiftO();
    UpperCtrlShift();
    assert UpperStr("O") == "O";
    assert forall i :: 0 <= i < 3 ==> CleanPart(parts[i]) && ups[i] == UpperStr(parts[i]);
    TokensOfJoin("Ctrl+Shift+O", parts, ups);
  }

  lemma ScanO(m: Modifiers)
    ensures Scan(["O"], m, None, ParseKeyCode) == Ok((m, Some(Letter('O'))))
  {
    assert ModifierOf("O").None?;
    assert ParseKeyCode("O") == Ok(Letter('O'));
  }

  lemma ScanShiftO(m: Modifiers)
    ensures Scan(["SHIFT", "O"], m, None, ParseKeyCode) == Scan(["O"], m.(shift := true), None, ParseKeyCode)
  {
    assert ModifierOf("SHIFT") == Some(Shift);
    assert ["SHIFT", "O"][1..] == ["O"];
  }

  lemma ScanCtrlShiftO()
    ensures Scan(["CTRL", "SHIFT", "O"], NoModifiers, None, ParseKeyCode)
         == Scan(["SHIFT", "O"], NoModifiers.(control := true), None, ParseKeyCode)
  {
    assert ModifierOf("CTRL") == Some(Control);
    assert ["CTRL", "SHIFT", "O"][1..] == ["SHIFT", "O"];
  }

  /** "Ctrl+Shift+O": control and shift, key O, no other flag. */
  lemma ExampleCtrlShiftO()
    ensures ParseHotkey("Ctrl+Shift+O") == Ok(HotKey(Modifiers(true, true, false, false), Letter('O')))
  {
    TokensCtrlShiftO();
    ParseHotkeyOfTokens("Ctrl+Shift+O", ["CTRL", "SHIFT", "O"]);
    ScanCtrlShiftO();
    ScanShiftO(NoModifiers.(control := true));
    ScanO(Modifiers(true, true, false, false));
  }

  lemma UpperAlt()
    ensures UpperStr("Alt") == "ALT"
  {
    var a := UpperStr("Alt");
    assert ToUpper('l') == 'L' && ToUpper('t') == 'T';
    assert a[1] == 'L' && a[2] == 'T';
  }

  lemma JoinAltF1()
    ensures Join(["Alt", "F1"], '+') == "Alt+F1"
  {
    assert Join(["Alt", "F1"][1..], '+') == "F1";
  }

  lemma TokensAltF1()
    ensures Tokens("Alt+F1") == ["ALT", "F1"]
  {
    var parts := ["Alt", "F1"];
    var ups := ["ALT", "F1"];
    JoinAltF1();
    assert CleanPart("Alt") && CleanPart("F1");
    UpperAlt();
    assert UpperStr("F1") == "F1";
    assert forall i :: 0 <= i < 2 ==> CleanPart(parts[i]) && ups[i] == UpperStr(parts[i]);
    TokensOfJoin("Alt+F1", parts, ups);
  }

  lemma ParseF(n: nat)
    requires 1 <= n <= 9
    ensures ParseKeyCode("F" + [DigitChar(n)]) == Ok(FKey(n))
  {
    FKeyIsParsed("F" + [DigitChar(n)], n);
  }

  lemma ScanAltF1()
    ensures Scan(["ALT", "F1"], NoModifiers, None, ParseKeyCode)
         == Scan(["F1"], NoModifiers.(alt := true), None, ParseKeyCode)
  {
    assert ModifierOf("ALT") == Some(Alt);
    assert ["ALT", "F1"][1..] == ["F1"];
  }

  lemma ScanFKey(m: Modifiers, n: nat)
    requires 1 <= n <= 9
    ensures Scan(["F" + [DigitChar(n)]], m, None, ParseKeyCode) == Ok((m, Some(FKey(n))))
  {
    var t := "F" + [DigitChar(n)];
    ParseF(n);
    assert ModifierOf(t).None?;
    assert [t][1..] == [];
  }

  /** "Alt+F1": alt only, key F1. */
  lemma ExampleAltF1()
    ensures ParseHotkey("Alt+F1") == Ok(HotKey(Modifiers(false, false, true, false), FKey(1)))
  {
    TokensAltF1();
    ParseHotkeyOfTokens("Alt+F1", ["ALT", "F1"]);
    ScanAltF1Whole();
  }

  lemma ScanAltF1Whole()
    ensures Scan(["ALT", "F1"], NoModifiers, None, ParseKeyCode)
         == Ok((Modifiers(false, false, true, false), Some(FKey(1))))
  {
    ScanAltF1();
    assert "F" + [DigitChar(1)] == "F1";
    ScanFKey(Modifiers(false, false, true, false), 1);
  }

  /** "F9": no modifier, key F9. */
  lemma ExampleF9()
    ensures ParseHotkey("F9") == Ok(HotKey(NoModifiers, FKey(9)))
  {
    SingleToken("F9");
    assert UpperStr("F9") == "F9";
    ParseHotkeyOfTokens("F9", ["F9"]);
    assert "F" + [DigitChar(9)] == "F9";
    ScanFKey(NoModifiers, 9);
  }

  lemma TokensInvalidKey()
    ensures Tokens("InvalidKey") == ["INVALIDKEY"]
  {
    SingleToken("InvalidKey");
    UpperInvalidKey();
  }

  lemma UpperInvalidKey()
    ensures UpperStr("InvalidKey") == "INVALIDKEY"
  {
    var u := UpperStr("InvalidKey");
    assert ToUpper('n') == 'N' && ToUpper('v') == 'V' && ToUpper('a') == 'A' && ToUpper('l') == 'L';
    assert ToUpper('i') == 'I' && ToUpper('d') == 'D' && ToUpper('e') == 'E' && ToUpper('y') == 'Y';
    assert u[1] == 'N' && u[2] == 'V' && u[3] == 'A' && u[4] == 'L' && u[5] == 'I' && u[6] == 'D';
    assert u[8] == 'E' && u[9] == 'Y';
  }

  lemma ScanInvalidKey()
    ensures Scan(["INVALIDKEY"], NoModifiers, None, ParseKeyCode) == Err("Unknown key code: " + "INVALIDKEY")
  {
    var t := "INVALIDKEY";
    assert ModifierOf(t).None?;
    assert ParseKeyCode(t) == Err("Unknown key code: " + t);
  }

  /** "InvalidKey" is one unknown key token. */
  lemma ExampleInvalidKey()
    ensures ParseHotkey("InvalidKey") == Err("Unknown key code: " + "INVALIDKEY")
  {
    TokensInvalidKey();
    ParseHotkeyOfTokens("InvalidKey", ["INVALIDKEY"]);
    ScanInvalidKey();
  }

  /** The empty string is one empty token, which is not a key. */
  lemma ExampleEmpty()
    ensures ParseHotkey("") == Err("Unknown key code: ")
  {
    SingleToken("");
    ParseHotkeyOfTokens("", [""]);
  }
}
