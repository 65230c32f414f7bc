/**
 * The Morse symbol table of the LED driver and the timing constants beside it
 * (McodeMod.h): a constant table of 40 dot/dash strings and the branch chain
 * `mcodestring` that picks one of them for any character code.
 */
module McodeTable {

  /** Durations in milliseconds of a dot, a dash, the gap after a pulse and the gap after a character. */
  const DotTimeMs: nat := 500
  const DashTimeMs: nat := 1500
  const IntercodeTimeMs: nat := 250
  const InterletterTimeMs: nat := 2000

  /** Index of the empty symbol, given to every character that has no code. */
  const CqDefault: nat := 0

  /**
   * The empty symbol, the 26 letters, the 10 numerals, then comma, period and
   * question mark, exactly as the driver's table lists them (note that the
   * period is "-.-.-.").
   */
  const MorseCode: seq<string> := ["",
    ".-", "-...", "-.-.", "-..", ".", "..-.", "--.", "....", "..", ".---", "-.-",
    ".-..", "--", "-.", "---", ".--.", "--.-", ".-.", "...", "-", "..-", "...-",
    ".--", "-..-", "-.--", "--..", "-----", ".----", "..---", "...--", "....-",
    ".....", "-....", "--...", "---..", "----.", "--..--", "-.-.-.", "..--.."]

  /** A symbol is a string of dots and dashes. */
  predicate IsSymbol(s: string) {
    forall k :: 0 <= k < |s| ==> s[k] == '.' || s[k] == '-'
  }

  predicate IsLetter(c: int) {
    'A' as int <= c <= 'Z' as int || 'a' as int <= c <= 'z' as int
  }

  predicate IsDigit(c: int) {
    '0' as int <= c <= '9' as int
  }

  /** The character codes the table has a non-empty symbol for. */
  predicate IsCoded(c: int) {
    IsLetter(c) || IsDigit(c) || c == ',' as int || c == '.' as int || c == '?' as int
  }

  /** Every entry of the table is a symbol, never longer than six, and only the first is empty. */
  predicate WellFormedTable(t: seq<string>) {
    forall i :: 0 <= i < |t| ==> IsSymbol(t[i]) && |t[i]| <= 6 && (t[i] == "" <==> i == CqDefault)
  }

  /**
   * The table index `mcodestring` selects for a character code: the branch
   * chain of the driver, tested in the same order. It is in bounds for every
   * integer, negative or above 127 included.
   */
  function SymbolIndex(asciicode: int): (i: nat)
    ensures i < |MorseCode|
  {
    if asciicode > 122 then CqDefault            // past 'z'
    else if asciicode > 96 then asciicode - 96   // 'a'..'z'
    else if asciicode > 90 then CqDefault        // '['..'`'
    else if asciicode > 64 then asciicode - 64   // 'A'..'Z'
    else if asciicode == 63 then 39              // '?'
    else if asciicode > 57 then CqDefault        // ':'..'>'
    else if asciicode > 47 then asciicode - 21   // '0'..'9' at 27 + (asciicode - 48)
    else if asciicode == 46 then 38              // '.'
    else if asciicode == 44 then 37              // ','
    else CqDefault
  }

  lemma TableIsWellFormed()
    ensures |MorseCode| == 40 && WellFormedTable(MorseCode)
  {
    forall i | 0 <= i < |MorseCode|
      ensures IsSymbol(MorseCode[i]) && |MorseCode[i]| <= 6 && (MorseCode[i] == "" <==> i == CqDefault)
    {
      EntryIsWellFormed(i);
    }
  }

  lemma EntryIsWellFormed(i: nat)
    requires i < |MorseCode|
    ensures IsSymbol(MorseCode[i]) && |MorseCode[i]| <= 6 && (MorseCode[i] == "" <==> i == CqDefault)
  {
    if i < 10 {
    } else if i < 20 {
    } else if i < 30 {
    } else {
    }
  }

  /** `morse_code[i]`: an entry of the table, a symbol that is empty only at the default index. */
  function Entry(i: nat): (s: string)
    requires i < |MorseCode|
    ensures IsSymbol(s) && |s| <= 6 && (s == "" <==> i == CqDefault)
  {
    EntryIsWellFormed(i);
    MorseCode[i]
  }

  /**
   * `mcodestring`: the symbol for a character code. It is always a dot/dash
   * string, and it is empty exactly for the codes the table does not cover.
   */
  function McodeString(asciicode: int): (s: string)
    ensures IsSymbol(s) && |s| <= 6
    ensures s == "" <==> !IsCoded(asciicode)
  {
    Entry(SymbolIndex(asciicode))
  }

  /** Letters are case-folded: an upper-case letter and its lower-case form share the entry `c - 64`. */
  lemma LetterCaseFolding(c: int)
    requires 'A' as int <= c <= 'Z' as int
    ensures McodeString(c) == McodeString(c + 32) == MorseCode[c - 64]
    ensures 1 <= c - 64 <= 26
  {
  }

  /** The numerals occupy entries 27..36 in order. */
  lemma DigitEntries(d: int)
    requires 0 <= d <= 9
    ensures McodeString('0' as int + d) == MorseCode[27 + d]
  {
  }

  lemma PunctuationEntries()
    ensures McodeString(',' as int) == MorseCode[37] == "--..--"
    ensures McodeString('.' as int) == MorseCode[38] == "-.-.-."
    ensures McodeString('?' as int) == MorseCode[39] == "..--.."
  {
  }

  /** Every code outside the letters, digits, comma, period and question mark selects the empty entry. */
  lemma UncodedFallback(c: int)
    requires !IsCoded(c)
    ensures SymbolIndex(c) == CqDefault && McodeString(c) == MorseCode[CqDefault] == ""
  {
  }

  lemma SampleSymbols()
    ensures McodeString('s' as int) == McodeString('S' as int) == "..."
    ensures McodeString('o' as int) == "---"
    ensures McodeString('e' as int) == "."
    ensures McodeString('0' as int) == "-----" && McodeString('9' as int) == "----."
    ensures McodeString(' ' as int) == "" && McodeString(0) == ""
  {
  }

  /**
   * A byte above 127 has no symbol whether the character type is unsigned
   * (the byte itself) or signed (the byte minus 256).
   */
  lemma HighBytesHaveNoSymbol(b: int)
    requires 128 <= b < 256
    ensures McodeString(b) == "" && McodeString(b - 256) == ""
  {
  }

  /** A dash lasts three dots; the gap after a pulse is shorter than a dot; the gap after a character is the longest. */
  lemma TimingRatios()
    ensures DashTimeMs == 3 * DotTimeMs
    ensures IntercodeTimeMs < DotTimeMs < DashTimeMs < InterletterTimeMs
  {
  }
}
