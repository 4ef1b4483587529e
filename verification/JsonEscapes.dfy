// Escapes in JSON strings: lib/json_spirit/json_spirit_writer_template.h:23-102 writes them,
// json_spirit_reader_template.h:56-174 reads them.
module JsonEscapes {
  import opened Decimals

  datatype Options = Options(pretty_print: bool, single_line_arrays: bool, raw_utf8: bool, always_escape_nonascii: bool,
                             iswprint: Char8 -> bool)

  // ---------------------------------------------------------------- writing

  function ToHexChar(c: nat): Char8
    requires c <= 0xF
  {
    if c < 10 then ('0' as int + c) as char else ('A' as int - 10 + c) as char
  }

  function NonPrintableToString(c: Char8): Text {
    var n := c as int;
    ['\\', 'u', ToHexChar(n / 4096 % 16), ToHexChar(n / 256 % 16), ToHexChar(n / 16 % 16), ToHexChar(n % 16)]
  }

  /** The escape of a character that has one of its own; empty for the others. */
  function OwnEscape(c: Char8): Text {
    if c == '"' then "\\\""
    else if c == '\\' then "\\\\"
    else if c == '\U{8}' then "\\b"
    else if c == '\U{c}' then "\\f"
    else if c == '\n' then "\\n"
    else if c == '\r' then "\\r"
    else if c == '\t' then "\\t"
    else []
  }

  /** One character of a string as it is written. */
  function Escape(c: Char8, o: Options): Text {
    if OwnEscape(c) != [] then OwnEscape(c)
    else if o.raw_utf8 || (!o.always_escape_nonascii && o.iswprint(c)) then [c]
    else NonPrintableToString(c)
  }

  function EscapeAll(s: Text, o: Options): Text {
    if s == [] then [] else Escape(s[0], o) + EscapeAll(s[1..], o)
  }

  method AddEscChar(c: Char8, s: Text) returns (r: Text, added: bool)
    ensures added <==> OwnEscape(c) != []
    ensures r == s + OwnEscape(c)
  {
    match c
    case '"' => return s + "\\\"", true;
    case '\\' => return s + "\\\\", true;
    case '\U{8}' => return s + "\\b", true;
    case '\U{c}' => return s + "\\f", true;
    case '\n' => return s + "\\n", true;
    case '\r' => return s + "\\r", true;
    case '\t' => return s + "\\t", true;
    case _ => return s, false;
  }

  /** Appends one character as it is written. */
  method AddChar(c: Char8, s: Text, o: Options) returns (r: Text)
    ensures r == s + Escape(c, o)
  {
    hide OwnEscape;
    var added;
    r, added := AddEscChar(c, s);
    if added {
      return;
    }
    if o.raw_utf8 {
      r := r + [c];
    } else if !o.always_escape_nonascii && o.iswprint(c) {
      r := r + [c];
    } else {
      r := r + NonPrintableToString(c);
    }
  }

  method AddEscChars(s: Text, o: Options) returns (result: Text)
    ensures result == EscapeAll(s, o)
    ensures (forall i :: 0 <= i < |s| ==> LeftAlone(s[i], o)) ==> result == s
    ensures |s| == 1 && !HasOwnEscape(s[0]) && !LeftAlone(s[0], o) ==> result == CharacterNumber(s[0])
  {
    EscapeOfText(s, o);
    hide Escape;
    hide LeftAlone;
    hide HasOwnEscape;
    hide CharacterNumber;
    result := [];
    for i := 0 to |s|
      invariant result + EscapeAll(s[i..], o) == EscapeAll(s, o)
    {
      ghost var before := result;
      assert s[i..][0] == s[i] && s[i..][1..] == s[i + 1..];
      result := AddChar(s[i], result, o);
      assert result + EscapeAll(s[i + 1..], o) == before + EscapeAll(s[i..], o);
    }
  }

  // ---------------------------------------------------------------- which characters are escaped, and how

  predicate HasOwnEscape(c: Char8) {
    c == '"' || c == '\\' || c == '\U{8}' || c == '\U{c}' || c == '\n' || c == '\r' || c == '\t'
  }

  /** By default the printable characters go as they are, with raw_utf8 all that have no escape of their own. */
  predicate LeftAlone(c: Char8, o: Options) {
    !HasOwnEscape(c) && (o.raw_utf8 || (!o.always_escape_nonascii && o.iswprint(c)))
  }

  /** The number of a character, in hexadecimal digits. */
  function CharacterNumber(c: Char8): Text {
    "\\u00" + ["0123456789ABCDEF"[c as int / 16], "0123456789ABCDEF"[c as int % 16]]
  }

  /** The escapes: a character itself, a backslash and one character, or its number, in printable ASCII. */
  lemma EscapeOfChar(c: Char8, o: Options)
    ensures Escape(c, o) == [c] <==> LeftAlone(c, o)
    ensures HasOwnEscape(c) ==> |Escape(c, o)| == 2 && Escape(c, o)[0] == '\\'
    ensures !HasOwnEscape(c) && !LeftAlone(c, o) ==> Escape(c, o) == CharacterNumber(c)
    ensures !LeftAlone(c, o) ==> forall i :: 0 <= i < |Escape(c, o)| ==> ' ' <= Escape(c, o)[i] <= '~'
  {
    var n := c as int;
    assert n / 4096 % 16 == 0 && n / 256 % 16 == 0 && n / 16 % 16 == n / 16;
    HexChar(n / 16);
    HexChar(n % 16);
    assert |NonPrintableToString(c)| == 6;
  }

  lemma HexChar(n: nat)
    requires n <= 0xF
    ensures ToHexChar(n) == "0123456789ABCDEF"[n]
  {
  }

  /** A text goes character by character. */
  lemma {:induction false} EscapesAppend(s: Text, t: Text, o: Options)
    ensures EscapeAll(s + t, o) == EscapeAll(s, o) + EscapeAll(t, o)
  {
    hide Escape;
    if s == [] {
      assert s + t == t;
    } else {
      EscapesAppend(s[1..], t, o);
      assert (s + t)[1..] == s[1..] + t;
    }
  }

  lemma {:induction false} EscapeOfText(s: Text, o: Options)
    ensures (forall i :: 0 <= i < |s| ==> LeftAlone(s[i], o)) ==> EscapeAll(s, o) == s
    ensures |s| == 1 && !HasOwnEscape(s[0]) && !LeftAlone(s[0], o) ==> EscapeAll(s, o) == CharacterNumber(s[0])
  {
    if s != [] {
      EscapeOfText(s[1..], o);
      EscapeOfChar(s[0], o);
      hide Escape;
      hide LeftAlone;
      hide HasOwnEscape;
      hide CharacterNumber;
      assert s == [s[0]] + s[1..];
    }
  }

  /**
   * With always_escape_nonascii a character goes unescaped just when raw_utf8 is set as well and it has no escape of
   * its own.
   */
  lemma EscapedByOption(c: Char8, o: Options)
    requires o.always_escape_nonascii
    ensures Escape(c, o) == [c] <==> OwnEscape(c) == [] && o.raw_utf8
  {
    assert |NonPrintableToString(c)| == 6;
  }

  /**
   * So the option leaves the printable ASCII characters alone, as it is meant to, just when raw_utf8 is set as well.
   */
  lemma AsciiIsEscapedToo(o: Options)
    requires o.always_escape_nonascii
    ensures (forall c: Char8 :: ' ' <= c <= '~' && OwnEscape(c) == [] ==> Escape(c, o) == [c]) <==> o.raw_utf8
  {
    forall c: Char8 ensures Escape(c, o) == [c] <==> OwnEscape(c) == [] && o.raw_utf8 {
      EscapedByOption(c, o);
    }
    assert OwnEscape('a') == [];
  }

  // ---------------------------------------------------------------- reading

  function HexToNum(c: Char8): (n: nat)
    ensures n < 16
  {
    if '0' <= c <= '9' then c as int - '0' as int
    else if 'a' <= c <= 'f' then c as int - 'a' as int + 10
    else if 'A' <= c <= 'F' then c as int - 'A' as int + 10
    else 0
  }

  /** Four hexadecimal digits, cut down to one 8-bit character. */
  function UnicodeChar(s: Text): Char8
    requires |s| == 4
  {
    ((HexToNum(s[0]) * 4096 + HexToNum(s[1]) * 256 + HexToNum(s[2]) * 16 + HexToNum(s[3])) % 256) as char
  }

  /**
   * What the escape after a backslash stands for, and how much of the text it is; an unknown one stands for nothing.
   */
  function EscapeAt(s: Text): (r: (Text, nat))
    requires s != []
    ensures 1 <= r.1 <= |s|
  {
    match s[0]
    case 't' => (['\t'], 1)
    case 'b' => (['\U{8}'], 1)
    case 'f' => (['\U{c}'], 1)
    case 'n' => (['\n'], 1)
    case 'r' => (['\r'], 1)
    case '\\' => (['\\'], 1)
    case '/' => (['/'], 1)
    case '"' => (['"'], 1)
    case 'x' => if |s| >= 3 then ([(HexToNum(s[1]) * 16 + HexToNum(s[2])) as char], 3) else ([], 1)
    case 'u' => if |s| >= 5 then ([UnicodeChar(s[1..5])], 5) else ([], 1)
    case _ => ([], 1)
  }

  /** A text with its escapes replaced; the very last character is never taken for the start of one. */
  function Substitute(s: Text): Text
    decreases |s|
  {
    if |s| < 2 then s
    else if s[0] == '\\' then EscapeAt(s[1..]).0 + Substitute(s[1 + EscapeAt(s[1..]).1..])
    else [s[0]] + Substitute(s[1..])
  }

  method SubstituteEscChars(s: Text) returns (result: Text)
    ensures result == Substitute(s)
  {
    hide EscapeAt;
    hide Substitute;
    SubstituteShort(s);
    if |s| < 2 {
      return s;
    }
    result := [];
    var substr_start, i := 0, 0;
    while i < |s| - 1
      invariant substr_start <= i <= |s|
      invariant result + s[substr_start..i] + Substitute(s[i..]) == Substitute(s)
      decreases |s| - i
    {
      SubstituteOne(s, i);
      ghost var before := result + s[substr_start..i];
      if s[i] == '\\' {
        result := result + s[substr_start..i];
        i := i + 1;
        var (c, n) := EscapeAt(s[i..]);
        result := result + c;
        i := i + n - 1;
        substr_start := i + 1;
        assert result + s[substr_start..i + 1] + Substitute(s[i + 1..]) == before + (c + Substitute(s[i + 1..]));
      } else {
        assert result + s[substr_start..i + 1] + Substitute(s[i + 1..]) == before + ([s[i]] + Substitute(s[i + 1..]));
      }
      i := i + 1;
    }
    SubstituteShort(s[i..]);
    assert s[substr_start..] == s[substr_start..i] + s[i..];
    result := result + s[substr_start..];
  }

  lemma SubstituteShort(s: Text)
    ensures |s| < 2 ==> Substitute(s) == s
    ensures s[0..0] + Substitute(s[0..]) == Substitute(s)
  {
    assert s[0..] == s;
  }

  lemma SubstituteOne(s: Text, i: nat)
    requires i < |s| - 1
    ensures Substitute(s[i..])
      == if s[i] == '\\' then var (c, n) := EscapeAt(s[i + 1..]); c + Substitute(s[i + 1 + n..])
                                  else [s[i]] + Substitute(s[i + 1..])
  {
    hide EscapeAt;
    assert s[i..][1..] == s[i + 1..];
    var n := EscapeAt(s[i + 1..]).1;
    assert s[i..][1 + n..] == s[i + 1 + n..];
  }

  lemma HexDigitIsRead(n: nat)
    requires n <= 0xF
    ensures HexToNum(ToHexChar(n)) == n
  {
  }

  /** An escape of one character after the backslash. */
  lemma OwnEscapeIsRead(c: Char8, rest: Text)
    requires OwnEscape(c) != []
    ensures Substitute(OwnEscape(c) + rest) == [c] + Substitute(rest)
  {
    hide Substitute;
    var t := OwnEscape(c) + rest;
    assert t[2..] == rest && t[0..] == t;
    assert t[1..][0] == OwnEscape(c)[1];
    SubstituteOne(t, 0);
  }

  lemma UnicodeIsRead(c: Char8, rest: Text)
    ensures Substitute(NonPrintableToString(c) + rest) == [c] + Substitute(rest)
  {
    hide Substitute;
    var e := NonPrintableToString(c);
    var t := e + rest;
    HexDigitIsRead(c as int / 16 % 16);
    HexDigitIsRead(c as int % 16);
    assert UnicodeChar(e[2..]) == c;
    assert t[0..] == t && t[6..] == rest && t[1..][1..5] == e[2..];
    SubstituteOne(t, 0);
  }

  lemma PlainIsRead(c: Char8, rest: Text)
    requires c != '\\'
    ensures Substitute([c] + rest) == [c] + Substitute(rest)
  {
    assert ([c] + rest)[1..] == rest;
  }

  lemma EscapeIsRead(c: Char8, o: Options, rest: Text)
    ensures Substitute(Escape(c, o) + rest) == [c] + Substitute(rest)
  {
    hide Substitute;
    hide NonPrintableToString;
    if OwnEscape(c) != [] {
      OwnEscapeIsRead(c, rest);
    } else {
      UnicodeIsRead(c, rest);
      PlainIsRead(c, rest);
    }
  }

  /** Reading the escapes of a written string gives the string back, whatever is printable and whatever the options. */
  lemma {:induction false} EscapesAreRead(s: Text, o: Options)
    ensures Substitute(EscapeAll(s, o)) == s
  {
    if s != [] {
      EscapesAreRead(s[1..], o);
      EscapeIsRead(s[0], o, EscapeAll(s[1..], o));
    }
  }

  // ---------------------------------------------------------------- where a string ends

  predicate HexDigit(c: Char8) {
    '0' <= c <= '9' || 'a' <= c <= 'f' || 'A' <= c <= 'F'
  }

  /**
   * How many characters lex_escape_ch_p takes; 0 when it does not match. Of octal and hexadecimal escapes, which are
   * never written, the parsing library decides which match; here hexadecimal ones have to fit a signed character, and
   * digits of octal ones count as characters of their own.
   */
  function LexEscape(s: Text): (n: nat)
    ensures n <= |s|
  {
    if s == [] then 0
    else if s[0] != '\\' then 1
    else if |s| < 2 then 0
    else if s[1] == 'x' || s[1] == 'X' then
      if |s| < 3 || !HexDigit(s[2]) then 0
      else if |s| < 4 || !HexDigit(s[3]) then 3
      else if HexToNum(s[2]) < 8 then 4 else 0
    else 2
  }

  /** How many characters of a text are in front of the quote that ends a string. */
  function LexChars(s: Text): (n: nat)
    ensures n <= |s|
    decreases |s|
  {
    if s == [] || s[0] == '"' || LexEscape(s) == 0 then 0
    else LexEscape(s) + LexChars(s[LexEscape(s)..])
  }

  /** The length of the quoted string a text starts with; 0 when there is none. */
  function StringLength(s: Text): (n: nat)
    ensures n <= |s| && (n > 0 ==> n >= 2)
  {
    if s == [] || s[0] != '"' then 0
    else
      var n := LexChars(s[1..]);
      if 1 + n < |s| && s[1 + n] == '"' then n + 2 else 0
  }

  /** The string between two quotes. */
  function GetStr(s: Text): Text
    requires |s| >= 2
  {
    Substitute(s[1..|s| - 1])
  }

  lemma OrdinaryChars(s: Text, rest: Text)
    requires forall i :: 0 <= i < |s| ==> s[i] != '"' && s[i] != '\\'
    ensures LexChars(s + rest) == |s| + LexChars(rest)
  {
    if s == [] {
      assert s + rest == rest;
    } else {
      OrdinaryChars(s[1..], rest);
      assert (s + rest)[1..] == s[1..] + rest;
    }
  }

  lemma LexTwo(t: Text)
    requires LexEscape(t) == 2
    ensures LexChars(t) == 2 + LexChars(t[2..])
  {
  }

  lemma EscapeIsLexed(c: Char8, o: Options, rest: Text)
    ensures LexChars(Escape(c, o) + rest) == |Escape(c, o)| + LexChars(rest)
  {
    hide LexChars;
    hide NonPrintableToString;
    if OwnEscape(c) != [] {
      OwnEscapeIsLexed(c, rest);
    } else if o.raw_utf8 || (!o.always_escape_nonascii && o.iswprint(c)) {
      OrdinaryChars([c], rest);
    } else {
      UnicodeIsLexed(c, rest);
    }
  }

  lemma OwnEscapeIsLexed(c: Char8, rest: Text)
    requires OwnEscape(c) != []
    ensures LexChars(OwnEscape(c) + rest) == |OwnEscape(c)| + LexChars(rest)
  {
    hide LexChars;
    var t := OwnEscape(c) + rest;
    LexTwo(t);
    assert t[2..] == rest;
  }

  lemma UnicodeIsLexed(c: Char8, rest: Text)
    ensures LexChars(NonPrintableToString(c) + rest) == |NonPrintableToString(c)| + LexChars(rest)
  {
    hide LexChars;
    var e := NonPrintableToString(c);
    var t := e + rest;
    LexTwo(t);
    OrdinaryChars(e[2..], rest);
    assert t[2..] == e[2..] + rest;
  }

  lemma {:induction false} EscapesAreLexed(s: Text, o: Options, rest: Text)
    ensures LexChars(EscapeAll(s, o) + rest) == |EscapeAll(s, o)| + LexChars(rest)
  {
    hide LexChars;
    hide Escape;
    if s == [] {
      assert EscapeAll(s, o) + rest == rest;
    } else {
      EscapesAreLexed(s[1..], o, rest);
      EscapeIsLexed(s[0], o, EscapeAll(s[1..], o) + rest);
      assert EscapeAll(s, o) + rest == Escape(s[0], o) + (EscapeAll(s[1..], o) + rest);
    }
  }

  function Quote(s: Text, o: Options): Text {
    "\"" + EscapeAll(s, o) + "\""
  }

  /** A written string ends at its own closing quote, and is read back. */
  lemma QuoteIsRead(s: Text, o: Options, rest: Text)
    ensures StringLength(Quote(s, o) + rest) == |Quote(s, o)|
    ensures (Quote(s, o) + rest)[..|Quote(s, o)|] == Quote(s, o) && (Quote(s, o) + rest)[|Quote(s, o)|..] == rest
    ensures |Quote(s, o)| >= 2 && GetStr(Quote(s, o)) == s
  {
    var e := EscapeAll(s, o);
    assert (Quote(s, o) + rest)[1..] == e + ("\"" + rest);
    EscapesAreLexed(s, o, "\"" + rest);
    EscapesAreRead(s, o);
    assert Quote(s, o)[1..|Quote(s, o)| - 1] == e;
  }
}
