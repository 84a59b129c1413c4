/** One line of the crosswikis concept dictionary:
    `text TAB probability SPACE article [SPACE flags...]`, parsed into its
    phrase, probability, article and flags, with the English-link count taken
    from the first `W:` flag. Float and fraction parsing are parameters. */
module DictionaryEntry {
  import opened JavaTypes
  import opened JavaStrings

  // ---------------------------------------------------------------------
  // The line pattern ([^\t]*)\t([0-9.e-]+) ([^ ]*)(| (.*))$ under matches()

  /** The characters of the probability group `[0-9.e-]`. */
  predicate NumberChar(c: char) {
    ('0' <= c <= '9') || c == '.' || c == 'e' || c == '-'
  }

  /** The characters `.` does not match: Java's line terminators. */
  predicate LineTerminator(c: char) {
    c == '\n' || c == '\r' || c == '\U{0085}' || c == '\U{2028}' || c == '\U{2029}'
  }

  /** The four groups of a match: text (group 1), probability (group 2),
      article (group 3) and the remainder after the article (group 4). */
  datatype LineParts = LineParts(text: string, number: string, article: string, rest: string)

  /** Every character is one of `[0-9.e-]`. */
  predicate NumberText(s: string) {
    |s| == 0 || (NumberChar(s[0]) && NumberText(s[1..]))
  }

  /** What `.*` matches: no line terminator anywhere. */
  predicate AnyText(s: string) {
    |s| == 0 || (!LineTerminator(s[0]) && AnyText(s[1..]))
  }

  /** What `(| (.*))$` accepts after the article. */
  predicate RestText(s: string) {
    s == [] || (s[0] == ' ' && AnyText(s[1..]))
  }

  /** The groups a match can produce: no tab in the text, a non-empty
      probability of pattern characters, a space-free article, and a
      remainder that is empty or a space followed by non-terminators. */
  predicate WellFormed(p: LineParts) {
    && '\t' !in p.text
    && |p.number| > 0
    && NumberText(p.number)
    && ' ' !in p.article
    && RestText(p.rest)
  }

  /** The line a set of groups spells. */
  function Compose(p: LineParts): string {
    p.text + ("\t" + (p.number + (" " + (p.article + p.rest))))
  }

  /** The text before the first `c` and the text after it. */
  function SplitAtFirst(s: string, c: char): (r: Option<(string, string)>)
    ensures r.None? <==> c !in s
    ensures r.Some? ==> c !in r.value.0 && s == r.value.0 + ([c] + r.value.1)
  {
    var i := IndexOf(s, c);
    if i < 0 then None
    else
      assert s == s[..i] + ([c] + s[i + 1..]);
      assert forall k :: 0 <= k < i ==> s[..i][k] == s[k];
      Some((s[..i], s[i + 1..]))
  }

  lemma SplitAtFirstCompose(a: string, b: string, c: char)
    requires c !in a
    ensures SplitAtFirst(a + ([c] + b), c) == Some((a, b))
  {
    var s := a + ([c] + b);
    FirstIndex(a, [c] + b, c);
    assert s[..|a|] == a;
    assert s[|a| + 1..] == b;
  }

  lemma FirstIndex(w: string, rest: string, c: char)
    requires c !in w
    requires |rest| > 0 && rest[0] == c
    ensures IndexOf(w + rest, c) == |w|
  {
    var s := w + rest;
    assert s[|w|] == c;
    assert forall k :: 0 <= k < |w| ==> s[k] == w[k];
  }

  /** Group 3 and group 4: the article runs to the next space or the end. */
  function SplitArticle(tail: string): (r: (string, string))
    ensures ' ' !in r.0 && tail == r.0 + r.1
    ensures r.1 == [] || r.1[0] == ' '
  {
    match SplitAtFirst(tail, ' ')
    case None =>
      assert tail + [] == tail;
      (tail, [])
    case Some((article, after)) => (article, [' '] + after)
  }

  /** `MATCH_ENTRY.matcher(line).matches()` and its groups. Group 1 cannot
      cross a tab, so it ends at the first tab; group 2 cannot hold a space,
      so it ends at the next space; group 3 is then as long as it can be,
      because what follows must be empty or start with a space; and `.*` must
      reach the end of the line. */
  function MatchLine(line: string): (r: Option<LineParts>)
    ensures r.Some? ==> WellFormed(r.value) && Compose(r.value) == line
  {
    match SplitAtFirst(line, '\t')
    case None => None
    case Some((text, after)) => MatchAfterTab(text, after)
  }

  /** Groups 2 to 4, once group 1 is known. */
  function MatchAfterTab(text: string, after: string): (r: Option<LineParts>)
    requires '\t' !in text
    ensures r.Some? ==>
              && WellFormed(r.value) && r.value.text == text
              && after == r.value.number + (" " + (r.value.article + r.value.rest))
  {
    match SplitAtFirst(after, ' ')
    case None => None
    case Some((number, tail)) => MatchTail(text, number, tail)
  }

  /** Groups 3 and 4, once the probability is known. */
  function MatchTail(text: string, number: string, tail: string): (r: Option<LineParts>)
    requires '\t' !in text
    ensures r.Some? ==>
              && WellFormed(r.value) && r.value.text == text && r.value.number == number
              && tail == r.value.article + r.value.rest
  {
    if |number| == 0 || !NumberText(number) then None
    else
      var (article, rest) := SplitArticle(tail);
      if RestText(rest) then Some(LineParts(text, number, article, rest)) else None
  }

  /** Every well-formed set of groups is matched back exactly: the pattern
      accepts a line iff it is `Compose` of well-formed groups, and those
      groups are unique. */
  lemma MatchCompose(p: LineParts)
    requires WellFormed(p)
    ensures MatchLine(Compose(p)) == Some(p)
  {
    var after := p.number + (" " + (p.article + p.rest));
    SplitAtFirstCompose(p.text, after, '\t');
    MatchAfterTabCompose(p);
  }

  lemma MatchAfterTabCompose(p: LineParts)
    requires WellFormed(p)
    ensures MatchAfterTab(p.text, p.number + (" " + (p.article + p.rest))) == Some(p)
  {
    NumberTextNoSpace(p.number);
    SplitAtFirstCompose(p.number, p.article + p.rest, ' ');
    MatchTailCompose(p);
  }

  lemma MatchTailCompose(p: LineParts)
    requires WellFormed(p)
    ensures MatchTail(p.text, p.number, p.article + p.rest) == Some(p)
  {
    SplitArticleCompose(p.article, p.rest);
  }

  lemma SplitArticleCompose(article: string, rest: string)
    requires ' ' !in article
    requires rest == [] || rest[0] == ' '
    ensures SplitArticle(article + rest) == (article, rest)
  {
    if rest == [] {
      assert article + rest == article;
    } else {
      assert rest == [' '] + rest[1..];
      SplitAtFirstCompose(article, rest[1..], ' ');
    }
  }

  lemma {:induction false} NumberTextNoSpace(s: string)
    requires NumberText(s)
    ensures ' ' !in s
    decreases |s|
  {
    if |s| > 0 {
      NumberTextNoSpace(s[1..]);
      assert s == [s[0]] + s[1..];
    }
  }

  // ---------------------------------------------------------------------
  // The constructor

  /** `org.apache.commons.lang3.math.Fraction`, as far as it is used here. */
  datatype Fraction = Fraction(numerator: Int32, denominator: Int32)

  /** How `Fraction.getFraction(String)` can fail: text that is not a
      fraction throws `NumberFormatException`; a zero denominator, as in
      `1/0`, throws `ArithmeticException`. */
  datatype FractionFailure = Malformed | ZeroDenominator

  datatype EntryError =
    | InvalidEntry(line: string)       // IllegalArgumentException("invalid concepts entry: ...")
    | NumberFormat(input: string)      // NumberFormatException from a number parser
    | Arithmetic(input: string)        // ArithmeticException from the fraction parser

  /** A parsed dictionary line; `line` is what `toString()` returns. */
  datatype Entry = Entry(text: string, fraction: real, article: string, flags: seq<string>, numLinks: Int32, line: string)

  /** Does `s` start with `prefix`? */
  predicate StartsWith(s: string, prefix: string) {
    |prefix| <= |s| && s[..|prefix|] == prefix
  }

  /** The index of the first flag that starts with `W:`. */
  function FirstLinkFlag(flags: seq<string>): (r: Option<nat>)
    ensures r.Some? ==> r.value < |flags| && StartsWith(flags[r.value], "W:")
    ensures r.Some? ==> forall k :: 0 <= k < r.value ==> !StartsWith(flags[k], "W:")
    ensures r.None? ==> forall k :: 0 <= k < |flags| ==> !StartsWith(flags[k], "W:")
  {
    if |flags| == 0 then None
    else if StartsWith(flags[0], "W:") then Some(0)
    else match FirstLinkFlag(flags[1..])
      case None => None
      case Some(k) => Some(k + 1)
  }

  /** `getFractionEnglishLinks()`: the fraction after `W:` in the first such
      flag, `null` when there is none; a fraction that does not parse throws. */
  function FractionEnglishLinks(flags: seq<string>, parseFraction: string -> Result<Fraction, FractionFailure>)
    : (r: Result<Option<Fraction>, EntryError>)
    ensures r == Ok(None) <==> FirstLinkFlag(flags).None?
    ensures FirstLinkFlag(flags).Some? ==>
              var f := flags[FirstLinkFlag(flags).value];
              match parseFraction(f[2..])
              case Err(Malformed) => r == Err(NumberFormat(f[2..]))
              case Err(ZeroDenominator) => r == Err(Arithmetic(f[2..]))
              case Ok(q) => r == Ok(Some(q))
  {
    match FirstLinkFlag(flags)
    case None => Ok(None)
    case Some(k) =>
      var f := flags[k];
      match parseFraction(f[2..])
      case Err(Malformed) => Err(NumberFormat(f[2..]))
      case Err(ZeroDenominator) => Err(Arithmetic(f[2..]))
      case Ok(q) => Ok(Some(q))
  }

  /** `getNumberEnglishLinks()`: the numerator of that fraction, or 0. */
  function NumberEnglishLinks(flags: seq<string>, parseFraction: string -> Result<Fraction, FractionFailure>)
    : (r: Result<Int32, EntryError>)
    ensures r.Err? <==> FractionEnglishLinks(flags, parseFraction).Err?
    ensures FractionEnglishLinks(flags, parseFraction) == Ok(None) ==> r == Ok(0)
    ensures FractionEnglishLinks(flags, parseFraction).Ok? && FractionEnglishLinks(flags, parseFraction).value.Some? ==>
              r == Ok(FractionEnglishLinks(flags, parseFraction).value.value.numerator)
  {
    match FractionEnglishLinks(flags, parseFraction)
    case Err(e) => Err(e)
    case Ok(None) => Ok(0)
    case Ok(Some(q)) => Ok(q.numerator)
  }

  /** The constructor's newline strip: one trailing `\n` is dropped. */
  function StripNewline(line: string): (r: string)
    ensures r == line || (r + "\n" == line)
    ensures r != line <==> |line| > 0 && line[|line| - 1] == '\n'
  {
    if |line| > 0 && line[|line| - 1] == '\n' then
      assert line[..|line| - 1] + "\n" == line;
      line[..|line| - 1]
    else line
  }

  /** `new DictionaryEntry(line)`. `parseFloat` is `Float.valueOf` and
      `parseFraction` is `Fraction.getFraction`; `None` and `Err` mean they threw. */
  function ParseEntry(line: string, parseFloat: string -> Option<real>, parseFraction: string -> Result<Fraction, FractionFailure>)
    : (r: Result<Entry, EntryError>)
    ensures r.Err? && r.error.InvalidEntry? <==> MatchLine(line).None?
  {
    match MatchLine(line)
    case None => Err(InvalidEntry(line))
    case Some(p) => BuildEntry(p, line, parseFloat, parseFraction)
  }

  /** The constructor after a successful match: the probability, the flags,
      the link count and the stripped line, in that order. */
  function BuildEntry(p: LineParts, line: string, parseFloat: string -> Option<real>, parseFraction: string -> Result<Fraction, FractionFailure>)
    : (r: Result<Entry, EntryError>)
    ensures r.Err? ==> r.error.NumberFormat? || r.error.Arithmetic?
    ensures parseFloat(p.number).None? ==> r == Err(NumberFormat(p.number))
    ensures parseFloat(p.number).Some? ==>
              (r.Err? <==> FractionEnglishLinks(Split(Trim(p.rest)), parseFraction).Err?)
    ensures r.Ok? ==> r.value.line == StripNewline(line)
  {
    match parseFloat(p.number)
    case None => Err(NumberFormat(p.number))
    case Some(fraction) =>
      var flags := Split(Trim(p.rest));
      match NumberEnglishLinks(flags, parseFraction)
      case Err(e) => Err(e)
      case Ok(numLinks) => Ok(Entry(p.text, fraction, p.article, flags, numLinks, StripNewline(line)))
  }

  /** `hasFlag(flag)`: `flag` is one of the flags, compared by content. */
  predicate HasFlag(e: Entry, flag: string)
  {
    flag in e.flags
  }

  /** A character-by-character reading of `NumberText` and `AnyText`. */
  lemma {:induction false} NumberTextAll(s: string)
    ensures NumberText(s) <==> forall k :: 0 <= k < |s| ==> NumberChar(s[k])
    decreases |s|
  {
    if |s| > 0 {
      NumberTextAll(s[1..]);
      assert forall k :: 1 <= k < |s| ==> s[k] == s[1..][k - 1];
    }
  }

  lemma {:induction false} AnyTextAll(s: string)
    ensures AnyText(s) <==> forall k :: 0 <= k < |s| ==> !LineTerminator(s[k])
    decreases |s|
  {
    if |s| > 0 {
      AnyTextAll(s[1..]);
      assert forall k :: 1 <= k < |s| ==> s[k] == s[1..][k - 1];
    }
  }

  /** What the constructor keeps once the line matched. */
  lemma BuildEntryFields(p: LineParts, line: string, parseFloat: string -> Option<real>, parseFraction: string -> Result<Fraction, FractionFailure>)
    requires BuildEntry(p, line, parseFloat, parseFraction).Ok?
    ensures var e := BuildEntry(p, line, parseFloat, parseFraction).value;
            && e.text == p.text && e.article == p.article
            && Some(e.fraction) == parseFloat(p.number)
            && e.flags == Pieces(Trim(p.rest))
            && Join(e.flags) == Trim(p.rest)
            && (p.rest == [] ==> e.flags == [""])
            && NumberEnglishLinks(e.flags, parseFraction) == Ok(e.numLinks)
  {
    TrimSpec(p.rest);
    SplitTrimmed(Trim(p.rest));
  }

  /** What a successful parse keeps: the groups of the match, the trimmed
      remainder split at single spaces (`[""]` when nothing follows the
      article), the numerator of the first `W:` flag or 0, and the line
      without its trailing newline. */
  lemma ParseEntryFields(line: string, parseFloat: string -> Option<real>, parseFraction: string -> Result<Fraction, FractionFailure>)
    requires ParseEntry(line, parseFloat, parseFraction).Ok?
    ensures MatchLine(line).Some?
    ensures var e := ParseEntry(line, parseFloat, parseFraction).value;
            var p := MatchLine(line).value;
            && Compose(p) == line && WellFormed(p)
            && e.text == p.text && e.article == p.article
            && Some(e.fraction) == parseFloat(p.number)
            && e.flags == Pieces(Trim(p.rest))
            && Join(e.flags) == Trim(p.rest)
            && (p.rest == [] ==> e.flags == [""])
            && NumberEnglishLinks(e.flags, parseFraction) == Ok(e.numLinks)
            && e.line == StripNewline(line)
  {
    var p := MatchLine(line).value;
    assert ParseEntry(line, parseFloat, parseFraction) == BuildEntry(p, line, parseFloat, parseFraction);
    BuildEntryFields(p, line, parseFloat, parseFraction);
  }

  /** Flags a writer can put after the article: at least one, each free of
      spaces, and joined into a non-empty string with no blank ends. */
  predicate FlagList(flags: seq<string>) {
    && |flags| > 0
    && (forall k :: 0 <= k < |flags| ==> ' ' !in flags[k])
    && |Join(flags)| > 0
    && Trimmed(Join(flags))
  }

  lemma BuildEntryRoundTrip(p: LineParts, line: string, flags: seq<string>,
                            parseFloat: string -> Option<real>, parseFraction: string -> Result<Fraction, FractionFailure>)
    requires p.rest == " " + Join(flags) && FlagList(flags)
    requires parseFloat(p.number).Some?
    requires NumberEnglishLinks(flags, parseFraction).Ok?
    ensures BuildEntry(p, line, parseFloat, parseFraction)
              == Ok(Entry(p.text, parseFloat(p.number).value, p.article, flags,
                          NumberEnglishLinks(flags, parseFraction).value, StripNewline(line)))
  {
    var j := Join(flags);
    TrimPadded(" ", j, "");
    assert " " + j + "" == p.rest;
    SplitJoin(flags);
    TrimmedUnchanged(j);
  }

  lemma BuildEntryNoFlags(p: LineParts, line: string,
                          parseFloat: string -> Option<real>, parseFraction: string -> Result<Fraction, FractionFailure>)
    requires p.rest == []
    requires parseFloat(p.number).Some?
    ensures BuildEntry(p, line, parseFloat, parseFraction)
              == Ok(Entry(p.text, parseFloat(p.number).value, p.article, [""], 0, StripNewline(line)))
  {
    assert Trim("") == "";
    assert Split("") == [""];
    assert !StartsWith("", "W:");
  }

  /** Writing a phrase, a probability, an article and a list of flags as a
      line and parsing it gives them back, whatever the parsers answer for
      other input. */
  lemma ParseEntryRoundTrip(p: LineParts, flags: seq<string>,
                            parseFloat: string -> Option<real>, parseFraction: string -> Result<Fraction, FractionFailure>)
    requires WellFormed(p) && p.rest == " " + Join(flags) && FlagList(flags)
    requires parseFloat(p.number).Some?
    requires NumberEnglishLinks(flags, parseFraction).Ok?
    ensures ParseEntry(Compose(p), parseFloat, parseFraction)
              == Ok(Entry(p.text, parseFloat(p.number).value, p.article, flags,
                          NumberEnglishLinks(flags, parseFraction).value, StripNewline(Compose(p))))
  {
    MatchCompose(p);
    BuildEntryRoundTrip(p, Compose(p), flags, parseFloat, parseFraction);
  }

  /** A line with no flags parses to the single empty flag and no links. */
  lemma ParseEntryNoFlags(p: LineParts, parseFloat: string -> Option<real>, parseFraction: string -> Result<Fraction, FractionFailure>)
    requires WellFormed(p) && p.rest == []
    requires parseFloat(p.number).Some?
    ensures ParseEntry(Compose(p), parseFloat, parseFraction)
              == Ok(Entry(p.text, parseFloat(p.number).value, p.article, [""], 0, StripNewline(Compose(p))))
  {
    MatchCompose(p);
    BuildEntryNoFlags(p, Compose(p), parseFloat, parseFraction);
  }

  /** A parsed line that ends in a newline had no flags, and the newline is
      the last character of the article: `.*` stops at a line terminator,
      while `[^ ]*` does not. */
  lemma NewlineEndsArticle(line: string, parseFloat: string -> Option<real>, parseFraction: string -> Result<Fraction, FractionFailure>)
    requires ParseEntry(line, parseFloat, parseFraction).Ok?
    requires |line| > 0 && line[|line| - 1] == '\n'
    ensures var e := ParseEntry(line, parseFloat, parseFraction).value;
            && e.flags == [""]
            && |e.article| > 0 && e.article[|e.article| - 1] == '\n'
            && e.line + "\n" == line
  {
    var p := MatchLine(line).value;
    assert ParseEntry(line, parseFloat, parseFraction) == BuildEntry(p, line, parseFloat, parseFraction);
    NewlineEndsGroups(p);
    BuildEntryFields(p, line, parseFloat, parseFraction);
  }

  /** Groups whose line ends in a newline have an empty remainder and an
      article ending in that newline. */
  lemma NewlineEndsGroups(p: LineParts)
    requires RestText(p.rest)
    requires Compose(p)[|Compose(p)| - 1] == '\n'
    ensures p.rest == []
    ensures |p.article| > 0 && p.article[|p.article| - 1] == '\n'
  {
    ComposeLast(p);
    if p.rest != [] {
      RestTextLast(p.rest);
    }
  }

  /** The last character of a line is that of the remainder, else that of
      the article, else the space before it. */
  lemma ComposeLast(p: LineParts)
    ensures var line := Compose(p);
            line[|line| - 1]
              == if p.rest != [] then p.rest[|p.rest| - 1]
                 else if p.article != [] then p.article[|p.article| - 1]
                 else ' '
  {
    var tail := p.article + p.rest;
    LastOfConcat(p.text, "\t" + (p.number + (" " + tail)));
    LastOfConcat("\t", p.number + (" " + tail));
    LastOfConcat(p.number, " " + tail);
    if p.rest != [] {
      LastOfConcat(" ", tail);
      LastOfConcat(p.article, p.rest);
    } else if p.article != [] {
      assert tail == p.article;
      LastOfConcat(" ", tail);
    }
  }

  lemma LastOfConcat(a: string, b: string)
    requires |b| > 0
    ensures (a + b)[|a + b| - 1] == b[|b| - 1]
  {
  }

  /** What follows the article never ends in a line terminator. */
  lemma RestTextLast(rest: string)
    requires RestText(rest) && rest != []
    ensures !LineTerminator(rest[|rest| - 1])
  {
    AnyTextAll(rest[1..]);
    if |rest| > 1 {
      assert rest[|rest| - 1] == rest[1..][|rest| - 2];
    }
  }

  /** `hasFlag` on a line written with the given flags asks whether the flag
      is one of them. */
  lemma HasFlagRoundTrip(p: LineParts, flags: seq<string>, flag: string,
                         parseFloat: string -> Option<real>, parseFraction: string -> Result<Fraction, FractionFailure>)
    requires WellFormed(p) && p.rest == " " + Join(flags) && FlagList(flags)
    requires parseFloat(p.number).Some?
    requires NumberEnglishLinks(flags, parseFraction).Ok?
    ensures ParseEntry(Compose(p), parseFloat, parseFraction).Ok?
    ensures HasFlag(ParseEntry(Compose(p), parseFloat, parseFraction).value, flag) <==> flag in flags
  {
    ParseEntryRoundTrip(p, flags, parseFloat, parseFraction);
  }

  // ---------------------------------------------------------------------
  // compareTo

  /** `compareTo` as written: `this.numLinks - e.numLinks` in `int`
      arithmetic, which wraps around when the difference does not fit. */
  function CompareToAsWritten(a: Int32, b: Int32): (r: Int32)
    ensures InInt32(a - b) ==> (r < 0 <==> a < b) && (r == 0 <==> a == b) && (r > 0 <==> a > b)
  {
    Wrap32(a - b)
  }

  /** An entry with the most links compares below one with -1 links. */
  lemma CompareToAsWrittenOverflows()
    ensures CompareToAsWritten(INT32_MAX, -1) < 0
    ensures CompareToAsWritten(INT32_MIN, 1) > 0
  {
  }

  /** The ordering `compareTo` is meant to give, as `Integer.compare` does. */
  function CompareLinks(a: Int32, b: Int32): (r: Int32)
    ensures r < 0 <==> a < b
    ensures r == 0 <==> a == b
    ensures r > 0 <==> a > b
  {
    if a < b then -1 else if a == b then 0 else 1
  }

  /** `compareTo` on entries, with the intended ordering. */
  function CompareTo(e1: Entry, e2: Entry): Int32 {
    CompareLinks(e1.numLinks, e2.numLinks)
  }

  /** The intended comparison is a consistent total order: antisymmetric in
      sign and transitive. */
  lemma CompareToIsOrder(e1: Entry, e2: Entry, e3: Entry)
    ensures CompareTo(e1, e2) < 0 <==> CompareTo(e2, e1) > 0
    ensures CompareTo(e1, e2) == 0 <==> CompareTo(e2, e1) == 0
    ensures CompareTo(e1, e2) <= 0 && CompareTo(e2, e3) <= 0 ==> CompareTo(e1, e3) <= 0
  {
  }

  /** As written and as intended agree whenever the subtraction fits. */
  lemma CompareToAgreesWithoutOverflow(a: Int32, b: Int32)
    requires InInt32(a - b)
    ensures CompareToAsWritten(a, b) < 0 <==> CompareLinks(a, b) < 0
    ensures CompareToAsWritten(a, b) == 0 <==> CompareLinks(a, b) == 0
  {
  }

  /** Link counts read from `W:` numerators are normally non-negative; for
      those the subtraction never overflows, so as written and as intended
      agree. */
  lemma CompareNonNegativeLinks(a: Int32, b: Int32)
    requires a >= 0 && b >= 0
    ensures InInt32(a - b)
    ensures CompareToAsWritten(a, b) < 0 <==> CompareLinks(a, b) < 0
    ensures CompareToAsWritten(a, b) == 0 <==> CompareLinks(a, b) == 0
    ensures CompareToAsWritten(a, b) > 0 <==> CompareLinks(a, b) > 0
  {
  }

  // ---------------------------------------------------------------------
  // normalize

  /** The number of leading characters that are neither letters nor digits. */
  function SkipOthers(s: string, isLetterOrDigit: char -> bool): (n: nat)
    ensures n <= |s|
    ensures n < |s| ==> isLetterOrDigit(s[n])
    ensures forall k :: 0 <= k < n ==> !isLetterOrDigit(s[k])
  {
    if |s| > 0 && !isLetterOrDigit(s[0]) then 1 + SkipOthers(s[1..], isLetterOrDigit) else 0
  }

  /** The length of the leading run of letters and digits. */
  function WordLength(s: string, isLetterOrDigit: char -> bool): (n: nat)
    ensures n <= |s|
    ensures n < |s| ==> !isLetterOrDigit(s[n])
    ensures forall k :: 0 <= k < n ==> isLetterOrDigit(s[k])
  {
    if |s| > 0 && isLetterOrDigit(s[0]) then 1 + WordLength(s[1..], isLetterOrDigit) else 0
  }

  /** `REPLACE_WEIRD.matcher(s).replaceAll(" ")`: each maximal run of
      characters outside `[\p{L}\p{N}]` becomes one space. */
  function ReplaceRuns(s: string, isLetterOrDigit: char -> bool): string
    decreases |s|
  {
    if |s| == 0 then ""
    else if isLetterOrDigit(s[0]) then [s[0]] + ReplaceRuns(s[1..], isLetterOrDigit)
    else
      var t := s[1..];
      " " + ReplaceRuns(t[SkipOthers(t, isLetterOrDigit)..], isLetterOrDigit)
  }

  /** Per-character lowercasing. */
  function LowerAll(s: string, lower: char -> char): (r: string)
    ensures |r| == |s|
    ensures forall k :: 0 <= k < |s| ==> r[k] == lower(s[k])
  {
    seq(|s|, k requires 0 <= k < |s| => lower(s[k]))
  }

  /** `normalize(s)`: replace, lowercase, trim. */
  function Normalize(s: string, isLetterOrDigit: char -> bool, lower: char -> char): string {
    Trim(LowerAll(ReplaceRuns(s, isLetterOrDigit), lower))
  }

  /** A non-empty run of letters and digits. */
  predicate Word(w: string, isLetterOrDigit: char -> bool) {
    |w| > 0 && forall k :: 0 <= k < |w| ==> isLetterOrDigit(w[k])
  }

  /** The maximal runs of letters and digits, in order. */
  function Words(s: string, isLetterOrDigit: char -> bool): (ws: seq<string>)
    decreases |s|
  {
    var t := s[SkipOthers(s, isLetterOrDigit)..];
    if |t| == 0 then []
    else
      var n := WordLength(t, isLetterOrDigit);
      [t[..n]] + Words(t[n..], isLetterOrDigit)
  }

  /** Every word is a non-empty run of letters and digits. */
  lemma {:induction false} WordsAreWords(s: string, isLetterOrDigit: char -> bool)
    ensures forall i :: 0 <= i < |Words(s, isLetterOrDigit)| ==> Word(Words(s, isLetterOrDigit)[i], isLetterOrDigit)
    decreases |s|
  {
    var t := s[SkipOthers(s, isLetterOrDigit)..];
    if |t| > 0 {
      var n := WordLength(t, isLetterOrDigit);
      LeadingWord(t, isLetterOrDigit);
      WordsAreWords(t[n..], isLetterOrDigit);
      assert Words(s, isLetterOrDigit) == [t[..n]] + Words(t[n..], isLetterOrDigit);
    }
  }

  /** A string that starts in a word starts with a whole word. */
  lemma LeadingWord(t: string, isLetterOrDigit: char -> bool)
    requires |t| > 0 && isLetterOrDigit(t[0])
    ensures Word(t[..WordLength(t, isLetterOrDigit)], isLetterOrDigit)
  {
    var n := WordLength(t, isLetterOrDigit);
    var w := t[..n];
    assert forall k :: 0 <= k < n ==> w[k] == t[k];
  }

  function Pad(b: bool): string {
    if b then " " else ""
  }

  /** The replaced string is the words joined by single spaces, with one
      space in front when `s` starts outside a word and one behind when it
      ends outside a word after some word. */
  lemma {:induction false} ReplaceRunsShape(s: string, isLetterOrDigit: char -> bool) returns (pre: bool, post: bool)
    ensures pre == (|s| > 0 && !isLetterOrDigit(s[0]))
    ensures post ==> |Words(s, isLetterOrDigit)| > 0
    ensures ReplaceRuns(s, isLetterOrDigit) == Pad(pre) + Join(Words(s, isLetterOrDigit)) + Pad(post)
    decreases |s|
  {
    if |s| == 0 {
      pre, post := false, false;
    } else if !isLetterOrDigit(s[0]) {
      var t := s[1..][SkipOthers(s[1..], isLetterOrDigit)..];
      var p, q := ReplaceRunsShape(t, isLetterOrDigit);
      ShapeOther(s, isLetterOrDigit, q);
      pre, post := true, q;
    } else if |s| == 1 {
      WordsStart(s, isLetterOrDigit);
      pre, post := false, false;
    } else if isLetterOrDigit(s[1]) {
      var p, q := ReplaceRunsShape(s[1..], isLetterOrDigit);
      ShapeExtend(s, isLetterOrDigit, q);
      pre, post := false, q;
    } else {
      var p, q := ReplaceRunsShape(s[1..], isLetterOrDigit);
      post := ShapeSingle(s, isLetterOrDigit, q);
      pre := false;
    }
  }

  /** A run outside a word in front becomes the one leading space. */
  lemma ShapeOther(s: string, isLetterOrDigit: char -> bool, q: bool)
    requires |s| > 0 && !isLetterOrDigit(s[0])
    requires var t := s[1..][SkipOthers(s[1..], isLetterOrDigit)..];
             ReplaceRuns(t, isLetterOrDigit) == Pad(false) + Join(Words(t, isLetterOrDigit)) + Pad(q)
    ensures ReplaceRuns(s, isLetterOrDigit) == Pad(true) + Join(Words(s, isLetterOrDigit)) + Pad(q)
  {
    var t := s[1..][SkipOthers(s[1..], isLetterOrDigit)..];
    WordsSkip(s, isLetterOrDigit);
    var j := Join(Words(t, isLetterOrDigit));
    assert Pad(false) + j == j;
    ConcatAssoc(" ", j, Pad(q));
  }

  /** A letter or digit in front of a word joins that word. */
  lemma ShapeExtend(s: string, isLetterOrDigit: char -> bool, q: bool)
    requires |s| > 1 && isLetterOrDigit(s[0]) && isLetterOrDigit(s[1])
    requires ReplaceRuns(s[1..], isLetterOrDigit) == Pad(false) + Join(Words(s[1..], isLetterOrDigit)) + Pad(q)
    ensures ReplaceRuns(s, isLetterOrDigit) == Pad(false) + Join(Words(s, isLetterOrDigit)) + Pad(q)
  {
    var ws := Words(s[1..], isLetterOrDigit);
    WordsExtend(s, isLetterOrDigit);
    JoinExtend(s[0], ws);
    assert Pad(false) + Join(ws) == Join(ws);
    assert Pad(false) + Join(Words(s, isLetterOrDigit)) == [s[0]] + Join(ws);
    ConcatAssoc([s[0]], Join(ws), Pad(q));
  }

  /** A letter or digit followed by a character outside a word is a word of
      its own; when no word follows, the replaced run is a trailing space. */
  lemma ShapeSingle(s: string, isLetterOrDigit: char -> bool, q: bool) returns (post: bool)
    requires |s| > 1 && isLetterOrDigit(s[0]) && !isLetterOrDigit(s[1])
    requires q ==> |Words(s[1..], isLetterOrDigit)| > 0
    requires ReplaceRuns(s[1..], isLetterOrDigit) == Pad(true) + Join(Words(s[1..], isLetterOrDigit)) + Pad(q)
    ensures post == (q || |Words(s[1..], isLetterOrDigit)| == 0)
    ensures ReplaceRuns(s, isLetterOrDigit) == Pad(false) + Join(Words(s, isLetterOrDigit)) + Pad(post)
  {
    var ws := Words(s[1..], isLetterOrDigit);
    WordsSingle(s, isLetterOrDigit);
    var vs := [[s[0]]] + ws;
    assert Pad(false) + Join(vs) == Join(vs);
    if |ws| == 0 {
      post := true;
      assert vs == [[s[0]]];
      assert ReplaceRuns(s[1..], isLetterOrDigit) == " ";
    } else {
      post := q;
      assert vs[1..] == ws;
      assert Join(vs) == [s[0]] + " " + Join(ws);
      ConcatAssoc([s[0]] + " ", Join(ws), Pad(q));
      ConcatAssoc([s[0]], " ", Join(ws));
      ConcatAssoc([s[0]], " " + Join(ws), Pad(q));
      ConcatAssoc(" ", Join(ws), Pad(q));
    }
  }

  /** Characters outside a word in front do not change the words. */
  lemma WordsSkip(s: string, isLetterOrDigit: char -> bool)
    requires |s| > 0 && !isLetterOrDigit(s[0])
    ensures Words(s, isLetterOrDigit) == Words(s[1..][SkipOthers(s[1..], isLetterOrDigit)..], isLetterOrDigit)
  {
    var t := s[1..][SkipOthers(s[1..], isLetterOrDigit)..];
    assert s[SkipOthers(s, isLetterOrDigit)..] == t;
    assert SkipOthers(t, isLetterOrDigit) == 0;
    assert t[0..] == t;
  }

  lemma WordsStart(s: string, isLetterOrDigit: char -> bool)
    requires |s| == 1 && isLetterOrDigit(s[0])
    ensures Words(s, isLetterOrDigit) == [[s[0]]]
  {
    assert SkipOthers(s, isLetterOrDigit) == 0;
    assert WordLength(s, isLetterOrDigit) == 1;
    assert s[0..] == s && s[..1] == [s[0]];
    assert Words(s[1..], isLetterOrDigit) == [];
  }

  /** When the first two characters are in a word, the first word of `s` is
      the first word of `s[1..]` with `s[0]` in front. */
  lemma WordsExtend(s: string, isLetterOrDigit: char -> bool)
    requires |s| > 1 && isLetterOrDigit(s[0]) && isLetterOrDigit(s[1])
    ensures var ws := Words(s[1..], isLetterOrDigit);
            |ws| > 0 && Words(s, isLetterOrDigit) == [[s[0]] + ws[0]] + ws[1..]
  {
    var t := s[1..];
    assert SkipOthers(s, isLetterOrDigit) == 0 && SkipOthers(t, isLetterOrDigit) == 0;
    assert s[0..] == s && t[0..] == t;
    var n := WordLength(t, isLetterOrDigit);
    assert WordLength(s, isLetterOrDigit) == n + 1;
    assert s[..n + 1] == [s[0]] + t[..n];
    assert s[n + 1..] == t[n..];
  }

  /** When `s[1]` is outside a word, `s[0]` is a word on its own. */
  lemma WordsSingle(s: string, isLetterOrDigit: char -> bool)
    requires |s| > 1 && isLetterOrDigit(s[0]) && !isLetterOrDigit(s[1])
    ensures Words(s, isLetterOrDigit) == [[s[0]]] + Words(s[1..], isLetterOrDigit)
  {
    assert SkipOthers(s, isLetterOrDigit) == 0;
    assert WordLength(s, isLetterOrDigit) == 1;
    assert s[0..] == s && s[..1] == [s[0]];
  }

  lemma JoinExtend(c: char, ws: seq<string>)
    requires |ws| > 0
    ensures Join([[c] + ws[0]] + ws[1..]) == [c] + Join(ws)
  {
    var vs := [[c] + ws[0]] + ws[1..];
    assert vs[0] == [c] + ws[0];
    assert vs[1..] == ws[1..];
    if |ws| > 1 {
      var j := Join(ws[1..]);
      assert Join(vs) == vs[0] + " " + j;
      assert Join(ws) == ws[0] + " " + j;
      ConcatAssoc([c], ws[0], " ");
      ConcatAssoc([c], ws[0] + " ", j);
    }
  }

  /** Lowercasing a join lowercases each word, when spaces stay spaces. */
  lemma {:induction false} LowerJoin(ws: seq<string>, lower: char -> char)
    requires lower(' ') == ' '
    ensures LowerAll(Join(ws), lower) == Join(LowerWords(ws, lower))
    decreases |ws|
  {
    if |ws| > 1 {
      LowerJoin(ws[1..], lower);
      assert LowerWords(ws, lower)[1..] == LowerWords(ws[1..], lower);
      LowerConcat(ws[0] + " ", Join(ws[1..]), lower);
      LowerConcat(ws[0], " ", lower);
    }
  }

  lemma LowerConcat(a: string, b: string, lower: char -> char)
    ensures LowerAll(a + b, lower) == LowerAll(a, lower) + LowerAll(b, lower)
  {
  }

  function LowerWords(ws: seq<string>, lower: char -> char): (vs: seq<string>)
    ensures |vs| == |ws|
    ensures forall i :: 0 <= i < |ws| ==> vs[i] == LowerAll(ws[i], lower)
  {
    seq(|ws|, i requires 0 <= i < |ws| => LowerAll(ws[i], lower))
  }

  /** The first and last characters of a join of non-empty words. */
  lemma {:induction false} JoinEnds(ws: seq<string>)
    requires |ws| > 0
    requires forall i :: 0 <= i < |ws| ==> |ws[i]| > 0
    ensures |Join(ws)| > 0
    ensures Join(ws)[0] == ws[0][0]
    ensures Join(ws)[|Join(ws)| - 1] == ws[|ws| - 1][|ws[|ws| - 1]| - 1]
    decreases |ws|
  {
    if |ws| > 1 {
      JoinEnds(ws[1..]);
    }
  }

  /** `normalize` gives the words of `s` (the maximal runs of letters and
      digits), lowercased and joined by single spaces. It relies on two facts
      about Java's lowercasing: a space stays a space, and a lowercased letter
      or digit is not blank. */
  lemma NormalizeWords(s: string, isLetterOrDigit: char -> bool, lower: char -> char)
    requires lower(' ') == ' '
    requires forall c :: isLetterOrDigit(c) ==> !Blank(lower(c))
    ensures Normalize(s, isLetterOrDigit, lower) == Join(LowerWords(Words(s, isLetterOrDigit), lower))
  {
    var pre, post := LowerShape(s, isLetterOrDigit, lower);
    var ws := Words(s, isLetterOrDigit);
    var vs := LowerWords(ws, lower);
    WordsAreWords(s, isLetterOrDigit);
    if |ws| == 0 {
      assert Join(vs) == "";
      assert Pad(pre) + "" + Pad(false) == Pad(pre);
    } else {
      LowerWordsTrimmed(ws, isLetterOrDigit, lower);
      TrimPadded(Pad(pre), Join(vs), Pad(post));
    }
  }

  /** Lowercased words joined by spaces have no blank ends. */
  lemma LowerWordsTrimmed(ws: seq<string>, isLetterOrDigit: char -> bool, lower: char -> char)
    requires |ws| > 0
    requires forall i :: 0 <= i < |ws| ==> Word(ws[i], isLetterOrDigit)
    requires forall c :: isLetterOrDigit(c) ==> !Blank(lower(c))
    ensures |Join(LowerWords(ws, lower))| > 0 && Trimmed(Join(LowerWords(ws, lower)))
  {
    var vs := LowerWords(ws, lower);
    forall i | 0 <= i < |vs|
      ensures |vs[i]| > 0
    {
      assert Word(ws[i], isLetterOrDigit);
    }
    JoinEnds(vs);
    assert Word(ws[0], isLetterOrDigit) && Word(ws[|ws| - 1], isLetterOrDigit);
  }

  /** The lowercased replacement: the lowercased words between the same
      padding. */
  lemma LowerShape(s: string, isLetterOrDigit: char -> bool, lower: char -> char) returns (pre: bool, post: bool)
    requires lower(' ') == ' '
    ensures post ==> |Words(s, isLetterOrDigit)| > 0
    ensures LowerAll(ReplaceRuns(s, isLetterOrDigit), lower)
              == Pad(pre) + Join(LowerWords(Words(s, isLetterOrDigit), lower)) + Pad(post)
  {
    pre, post := ReplaceRunsShape(s, isLetterOrDigit);
    var ws := Words(s, isLetterOrDigit);
    LowerConcat(Pad(pre) + Join(ws), Pad(post), lower);
    LowerConcat(Pad(pre), Join(ws), lower);
    LowerJoin(ws, lower);
    assert LowerAll(Pad(pre), lower) == Pad(pre);
    assert LowerAll(Pad(post), lower) == Pad(post);
  }

  /** A normalized string has no blank ends and never two spaces in a row,
      under the same two facts about lowercasing. */
  lemma NormalizeWordsShape(s: string, isLetterOrDigit: char -> bool, lower: char -> char)
    requires lower(' ') == ' '
    requires forall c :: isLetterOrDigit(c) ==> !Blank(lower(c))
    ensures var n := Normalize(s, isLetterOrDigit, lower);
            && Trimmed(n)
            && (forall k :: 0 <= k < |n| - 1 ==> !(n[k] == ' ' && n[k + 1] == ' '))
  {
    NormalizeWords(s, isLetterOrDigit, lower);
    WordsAreWords(s, isLetterOrDigit);
    var vs := LowerWords(Words(s, isLetterOrDigit), lower);
    NoDoubleSpace(vs);
    if |vs| > 0 {
      JoinEnds(vs);
    }
  }

  /** Non-empty, space-free words joined by single spaces never hold two
      spaces in a row. */
  lemma {:induction false} NoDoubleSpace(vs: seq<string>)
    requires forall i :: 0 <= i < |vs| ==> |vs[i]| > 0 && ' ' !in vs[i]
    ensures forall k :: 0 <= k < |Join(vs)| - 1 ==> !(Join(vs)[k] == ' ' && Join(vs)[k + 1] == ' ')
    decreases |vs|
  {
    if |vs| > 1 {
      NoDoubleSpace(vs[1..]);
      var j := Join(vs);
      var w := vs[0];
      var t := Join(vs[1..]);
      assert j == w + " " + t;
      JoinEnds(vs[1..]);
      forall k | 0 <= k < |j| - 1
        ensures !(j[k] == ' ' && j[k + 1] == ' ')
      {
        if k < |w| {
          assert j[k] == w[k];
        } else if k == |w| {
          assert j[k + 1] == t[0] == vs[1][0];
          assert vs[1][0] in vs[1];
        } else {
          assert j[k] == t[k - |w| - 1];
          assert j[k + 1] == t[k - |w|];
        }
      }
    }
  }
}
