/**
  The first-name normaliser of clay.py: `is_initials` and `clean_first_name`.
  Both regular expressions are encoded directly as scanners over ASCII text,
  each beside a declarative statement of the strings it accepts.
 */
module Names {
  import opened Common
  import opened Text

  // ---------------------------------------------------------------------------
  // Initials: ^[A-Za-z](?:[. ]?[A-Za-z]){0,2}[.]?$
  // ---------------------------------------------------------------------------

  /** The class `[. ]` between two letters. */
  predicate IsSeparator(c: char) { c == '.' || c == ' ' }

  /** Whether `t` matches `(?:[. ]?[A-Za-z]){0,n}[.]?$`. */
  predicate InitialsTail(t: string, n: nat)
    decreases n
  {
    || t == []
    || t == "."
    || (n > 0 && |t| >= 1 && IsLetter(t[0]) && InitialsTail(t[1..], n - 1))
    || (n > 0 && |t| >= 2 && IsSeparator(t[0]) && IsLetter(t[1]) && InitialsTail(t[2..], n - 1))
  }

  /** Whether the whole of `s` matches the initials pattern. */
  predicate InitialsPattern(s: string) {
    |s| > 0 && IsLetter(s[0]) && InitialsTail(s[1..], 2)
  }

  /** `is_initials`: a missing name is not initials; otherwise the stripped text must match. */
  predicate IsInitials(name: Cell) {
    name.Some? && InitialsPattern(Strip(name.value))
  }

  function LetterCount(s: string): (n: nat)
    ensures n <= |s|
  {
    if s == [] then 0 else (if IsLetter(s[0]) then 1 else 0) + LetterCount(s[1..])
  }

  /**
    The strings the initials pattern accepts, stated without the pattern: one to three
    ASCII letters, any two neighbouring letters separated by at most one `.` or space,
    and at most one trailing `.`; nothing else.
   */
  ghost predicate InitialsShape(s: string) {
    && |s| > 0
    && IsLetter(s[0])
    && (forall i :: 0 <= i < |s| ==> IsLetter(s[i]) || IsSeparator(s[i]))
    && (forall i :: 0 < i < |s| && !IsLetter(s[i]) ==> IsLetter(s[i - 1]))
    && (IsLetter(s[|s| - 1]) || s[|s| - 1] == '.')
    && LetterCount(s) <= 3
  }

  /** The shape of what follows a letter inside an initials string. */
  ghost predicate TailShape(t: string, n: nat) {
    && (forall i :: 0 <= i < |t| ==> IsLetter(t[i]) || IsSeparator(t[i]))
    && (forall i :: 0 < i < |t| && !IsLetter(t[i]) ==> IsLetter(t[i - 1]))
    && (t == [] || IsLetter(t[|t| - 1]) || t[|t| - 1] == '.')
    && LetterCount(t) <= n
  }

  lemma {:induction false} InitialsTailIff(t: string, n: nat)
    ensures InitialsTail(t, n) <==> TailShape(t, n)
    decreases |t|
  {
    if t == [] || t == "." {
    } else if n == 0 {
      assert LetterCount(t) > 0 || !TailShape(t, n) by {
        if IsLetter(t[0]) {
          assert LetterCount(t) == 1 + LetterCount(t[1..]);
        } else if |t| >= 2 && IsSeparator(t[0]) && IsLetter(t[1]) {
          assert LetterCount(t[1..]) == 1 + LetterCount(t[2..]) by { assert t[1..][1..] == t[2..]; }
        } else if IsSeparator(t[0]) && |t| >= 2 {
          assert !IsLetter(t[1]);
        }
      }
    } else if IsLetter(t[0]) {
      InitialsTailIff(t[1..], n - 1);
      if InitialsTail(t, n) {
        assert n > 0 && InitialsTail(t[1..], n - 1);
      }
      if TailShape(t, n) {
        assert LetterCount(t) == 1 + LetterCount(t[1..]);
        assert TailShape(t[1..], n - 1) by {
          forall i | 0 < i < |t[1..]| && !IsLetter(t[1..][i])
            ensures IsLetter(t[1..][i - 1])
          {
            assert t[1..][i] == t[i + 1];
          }
        }
      }
    } else if |t| >= 2 && IsSeparator(t[0]) && IsLetter(t[1]) {
      InitialsTailIff(t[2..], n - 1);
      assert LetterCount(t) == 1 + LetterCount(t[2..]) by {
        assert t[1..][1..] == t[2..];
      }
      if InitialsTail(t, n) {
        assert n > 0 && InitialsTail(t[2..], n - 1);
      }
      if TailShape(t, n) {
        assert TailShape(t[2..], n - 1) by {
          forall i | 0 < i < |t[2..]| && !IsLetter(t[2..][i])
            ensures IsLetter(t[2..][i - 1])
          {
            assert t[2..][i] == t[i + 2];
          }
        }
      }
    } else {
      assert !InitialsTail(t, n);
      if IsSeparator(t[0]) && |t| >= 2 {
        assert !IsLetter(t[1]);
        assert !TailShape(t, n);
      }
    }
  }

  /** The scanner for the initials pattern accepts exactly the strings of `InitialsShape`. */
  lemma InitialsPatternIff(s: string)
    ensures InitialsPattern(s) <==> InitialsShape(s)
  {
    if |s| > 0 && IsLetter(s[0]) {
      var t := s[1..];
      InitialsTailIff(t, 2);
      assert LetterCount(s) == 1 + LetterCount(t);
      if TailShape(t, 2) {
        forall i | 0 < i < |s| && !IsLetter(s[i])
          ensures IsLetter(s[i - 1])
        {
          if i > 1 { assert t[i - 1] == s[i]; }
        }
      }
      if InitialsShape(s) {
        forall i | 0 < i < |t| && !IsLetter(t[i])
          ensures IsLetter(t[i - 1])
        {
          assert t[i] == s[i + 1];
        }
      }
    }
  }

  // ---------------------------------------------------------------------------
  // Quotes: ['"]([^'"]+)['"] | "([^"]+)" | '([^']+)'
  // ---------------------------------------------------------------------------

  const Quotes: set<char> := {'"', '\''}
  const DoubleQuotes: set<char> := {'"'}
  const SingleQuotes: set<char> := {'\''}

  /** The first index at or after `i` whose character is in `stops`, or `|s|`. */
  function FindFrom(s: string, i: nat, stops: set<char>): (k: nat)
    requires i <= |s|
    ensures i <= k <= |s|
    ensures forall j :: i <= j < k ==> s[j] !in stops
    ensures k < |s| ==> s[k] in stops
    decreases |s| - i
  {
    if i == |s| || s[i] in stops then i else FindFrom(s, i + 1, stops)
  }

  /**
    One alternative `[stops]([^stops]+)[stops]`-like, opened by a character of `open`,
    tried at position `p`: its captured text. In each alternative the closing class equals
    the excluded class, so the greedy body ends just before the next character of `stops`.
   */
  function AltAt(s: string, p: nat, open: set<char>, stops: set<char>): (q: Option<string>)
  {
    if p < |s| && s[p] in open then
      var k := FindFrom(s, p + 1, stops);
      if p + 1 < k < |s| then Some(s[p + 1..k]) else None
    else
      None
  }

  /** What it means for such an alternative to match at `p` capturing `q`. */
  ghost predicate AltMatches(s: string, p: nat, q: string, open: set<char>, stops: set<char>) {
    && p + |q| + 1 < |s|
    && s[p] in open
    && q != []
    && s[p + 1..p + 1 + |q|] == q
    && (forall i :: 0 <= i < |q| ==> q[i] !in stops)
    && s[p + 1 + |q|] in stops
  }

  /** The scanner for one alternative finds a capture exactly when the alternative matches. */
  lemma AltAtIff(s: string, p: nat, q: string, open: set<char>, stops: set<char>)
    ensures AltAt(s, p, open, stops) == Some(q) <==> AltMatches(s, p, q, open, stops)
  {
    if AltMatches(s, p, q, open, stops) {
      var k := FindFrom(s, p + 1, stops);
      var e := p + 1 + |q|;
      forall j | p + 1 <= j < e ensures s[j] !in stops {
        assert s[j] == q[j - p - 1];
      }
      assert k == e;
    }
  }

  /** The quote pattern at position `p`: the alternatives in order, the first that matches. */
  function QuoteAt(s: string, p: nat): (q: Option<string>)
    ensures q.Some? ==> q.value != []
  {
    match AltAt(s, p, Quotes, Quotes)
    case Some(q) => Some(q)
    case None =>
      match AltAt(s, p, DoubleQuotes, DoubleQuotes)
      case Some(q) => Some(q)
      case None => AltAt(s, p, SingleQuotes, SingleQuotes)
  }

  /** A match of the quote pattern: where it starts and the text of its one non-empty group. */
  datatype QuoteMatch = QuoteMatch(start: nat, text: string)

  /** `re.search` of the quote pattern from position `from`: the leftmost match. */
  function SearchQuote(s: string, from: nat): (m: Option<QuoteMatch>)
    decreases |s| - from
  {
    if from >= |s| then None
    else match QuoteAt(s, from)
      case Some(q) => Some(QuoteMatch(from, q))
      case None => SearchQuote(s, from + 1)
  }

  /**
    The search finds the leftmost position at or after `from` where the pattern matches,
    with that match's text, and finds nothing exactly when the pattern matches nowhere.
   */
  lemma {:induction false} SearchQuoteLeftmost(s: string, from: nat)
    ensures var m := SearchQuote(s, from);
      && (m.Some? ==> from <= m.value.start < |s| && QuoteAt(s, m.value.start) == Some(m.value.text))
      && (m.Some? ==> forall p :: from <= p < m.value.start ==> QuoteAt(s, p).None?)
      && (m.None? <==> forall p :: from <= p < |s| ==> QuoteAt(s, p).None?)
    decreases |s| - from
  {
    if from < |s| && QuoteAt(s, from).None? {
      SearchQuoteLeftmost(s, from + 1);
    }
  }

  /**
    What a match of the quote pattern captures: when the first alternative matches, its text
    holds no quote character at all and sits between two quote characters, which may differ;
    otherwise the text is bracketed by the same quote character and starts with the other one.
   */
  lemma QuoteAtShape(s: string, p: nat)
    requires QuoteAt(s, p).Some?
    ensures var q := QuoteAt(s, p).value;
      || AltMatches(s, p, q, Quotes, Quotes)
      || (AltMatches(s, p, q, {s[p]}, {s[p]}) && q[0] in Quotes && q[0] != s[p])
  {
    var q := QuoteAt(s, p).value;
    if AltAt(s, p, Quotes, Quotes).Some? {
      AltAtIff(s, p, q, Quotes, Quotes);
    } else if AltAt(s, p, DoubleQuotes, DoubleQuotes).Some? {
      AltAtIff(s, p, q, DoubleQuotes, DoubleQuotes);
      assert s[p + 1] == q[0];
      assert s[p + 1] in Quotes;
    } else {
      AltAtIff(s, p, q, SingleQuotes, SingleQuotes);
      assert s[p + 1] == q[0];
      assert s[p + 1] in Quotes;
    }
  }

  // ---------------------------------------------------------------------------
  // clean_first_name
  // ---------------------------------------------------------------------------

  /** The pair `(name, is_valid)` that `clean_first_name` returns. */
  datatype Cleaned = Cleaned(name: Cell, confident: bool)

  /** The IndexError of `split()[0]` on a name that is blank after stripping. */
  datatype NameError = BlankName

  /** A name that is present but blank: `split()[0]` raises on it. */
  predicate IsBlank(name: Cell) {
    name.Some? && AllSpace(name.value)
  }

  /** The stripped input, or the missing cell itself. */
  function StrippedCell(name: Cell): (stripped: Cell) {
    match name
    case None => None
    case Some(s) => Some(Strip(s))
  }

  /**
    `clean_first_name`: missing names and initials come back unchanged (stripped) and
    unconfident; otherwise the text of the leftmost quoted span, stripped; otherwise the
    first word, capitalised; a blank name raises.
   */
  function CleanFirstName(name: Cell): (r: Result<Cleaned, NameError>)
  {
    if name.None? then
      Ok(Cleaned(name, false))
    else
      var s := Strip(name.value);
      if IsInitials(Some(s)) then
        Ok(Cleaned(Some(s), false))
      else
        var m := SearchQuote(s, 0);
        if m.Some? && m.value.text != [] then
          Ok(Cleaned(Some(Strip(m.value.text)), true))
        else
          match FirstWord(s)
          case None => Err(BlankName)
          case Some(w) => Ok(Cleaned(Some(Capitalize(w)), true))
  }

  /**
    The normaliser raises exactly on blank names; it is unconfident exactly on missing
    names and on names whose stripped text has the shape of initials, and then it returns
    the stripped input unchanged; a confident result is always a name.
   */
  lemma CleanFirstNameContract(name: Cell)
    ensures CleanFirstName(name).Err? <==> IsBlank(name)
    ensures CleanFirstName(name).Ok? ==>
      (!CleanFirstName(name).value.confident <==> name.None? || IsInitials(name))
    ensures CleanFirstName(name).Ok? ==>
      (!CleanFirstName(name).value.confident <==> name.None? || InitialsShape(Strip(name.value)))
    ensures CleanFirstName(name).Ok? && !CleanFirstName(name).value.confident ==>
      CleanFirstName(name).value.name == StrippedCell(name)
    ensures CleanFirstName(name).Ok? && CleanFirstName(name).value.confident ==>
      CleanFirstName(name).value.name.Some?
  {
    if name.Some? {
      var s := Strip(name.value);
      StripIdempotent(name.value);
      InitialsPatternIff(s);
      StripBlank(name.value);
      if !IsInitials(Some(s)) {
        var m := SearchQuote(s, 0);
        if !(m.Some? && m.value.text != []) {
          assert FirstWord(s).None? <==> AllSpace(s);
        }
      }
    }
  }

  /** A string is blank exactly when its stripped text is empty. */
  lemma StripBlank(s: string)
    ensures AllSpace(s) <==> Strip(s) == []
    ensures AllSpace(Strip(s)) <==> Strip(s) == []
  {
    var r := Strip(s);
    if AllSpace(s) {
      assert s == s + [] + [];
      StripPadded(s, [], []);
    }
    if r != [] {
      assert !IsSpace(r[0]);
    }
    if r == [] {
      var t := TrimStart(s);
      TrimStartSplits(s);
      TrimEndSplits(t);
      assert t[|TrimEnd(t)|..] == t;
      assert AllSpace(t);
      assert t == [];
      assert s[..|s|] == s;
    }
  }

  /** The leftmost match of the quote pattern decides the name; its text is stripped. */
  lemma CleanTakesLeftmostQuote(name: Cell, p: nat, q: string)
    requires name.Some? && !InitialsShape(Strip(name.value))
    requires QuoteAt(Strip(name.value), p) == Some(q)
    requires forall p' :: 0 <= p' < p ==> QuoteAt(Strip(name.value), p').None?
    ensures CleanFirstName(name) == Ok(Cleaned(Some(Strip(q)), true))
  {
    var s := Strip(name.value);
    StripIdempotent(name.value);
    InitialsPatternIff(s);
    SearchQuoteLeftmost(s, 0);
    var m := SearchQuote(s, 0);
    assert m.Some? && m.value.start == p;
  }

  /**
    Without initials or quotes, the name is the first word of the stripped text with its
    first character upper-cased and the others lower-cased.
   */
  lemma CleanCapitalizesFirstWord(name: Cell)
    requires name.Some? && !AllSpace(name.value)
    requires !InitialsShape(Strip(name.value))
    requires forall p :: 0 <= p < |Strip(name.value)| ==> QuoteAt(Strip(name.value), p).None?
    ensures CleanFirstName(name).Ok? && CleanFirstName(name).value.confident
    ensures var s, c := Strip(name.value), CleanFirstName(name).value.name.value;
      && 0 < |c| <= |s|
      && (|c| == |s| || IsSpace(s[|c|]))
      && (forall i :: 0 <= i < |c| ==> !IsSpace(s[i]) && ToLower(c[i]) == ToLower(s[i]))
      && !IsLower(c[0])
      && (forall i :: 0 < i < |c| ==> !IsUpper(c[i]))
  {
    var s := Strip(name.value);
    StripIdempotent(name.value);
    InitialsPatternIff(s);
    StripBlank(name.value);
    SearchQuoteLeftmost(s, 0);
    assert SearchQuote(s, 0).None?;
    var w := Word(s);
    assert FirstWord(s) == Some(w);
    CleanTakesFirstWord(name, w);
  }

  /** Short ordinary names are caught by the pattern as well as real initials. */
  lemma InitialsExamples()
    ensures InitialsPattern("A.B.") && InitialsPattern("A B") && InitialsPattern("J")
    ensures InitialsPattern("Al") && InitialsPattern("Bob")
    ensures !InitialsPattern("A. B") && !InitialsPattern("Anna") && !InitialsPattern("")
  {
    assert "A.B."[1..] == ".B." && ".B."[2..] == ".";
    assert "A B"[1..] == " B" && " B"[2..] == "";
    assert "Bob"[1..] == "ob" && "ob"[1..] == "b" && "b"[1..] == "";
    assert "Al"[1..] == "l" && "l"[1..] == "";
    assert "A. B"[1..] == ". B";
    assert "Anna"[1..] == "nna" && "nna"[1..] == "na" && "na"[1..] == "a";
  }

  /** Text with no quote character has no match of the quote pattern. */
  lemma NoQuoteNoMatch(s: string)
    requires forall i :: 0 <= i < |s| ==> s[i] !in Quotes
    ensures SearchQuote(s, 0).None?
  {
    SearchQuoteLeftmost(s, 0);
    forall p | 0 <= p < |s| ensures QuoteAt(s, p).None? {
      assert s[p] !in Quotes;
    }
  }

  /** Stripping keeps a text free of quote characters, so it still has no match. */
  lemma NoQuoteStripped(s: string)
    requires forall i :: 0 <= i < |s| ==> s[i] !in Quotes
    ensures SearchQuote(Strip(s), 0).None?
  {
    var t := TrimStart(s);
    var r := Strip(s);
    TrimStartSplits(s);
    TrimEndSplits(t);
    assert r == t[..|r|];
    assert t == s[|s| - |t|..];
    forall i | 0 <= i < |r| ensures r[i] !in Quotes {
      assert r[i] == s[|s| - |t| + i];
    }
    NoQuoteNoMatch(r);
  }

  /** Three letters followed by anything but a lone `.` are too long for initials. */
  lemma ThreeLettersMoreNotInitials(s: string)
    requires |s| >= 4 && IsLetter(s[0]) && IsLetter(s[1]) && IsLetter(s[2]) && s[3..] != "."
    ensures !InitialsPattern(s)
  {
    assert s[1..][1..] == s[2..];
    assert s[2..][1..] == s[3..];
    assert !InitialsTail(s[3..], 0);
  }

  lemma PlainNameStrip()
    ensures Strip("maria garcia") == "maria garcia"
  {
    StripTrimmed("maria garcia");
  }

  lemma PlainNameWord()
    ensures FirstWord("maria garcia") == Some("maria")
  {
    var s := "maria garcia";
    assert s == "maria" + " garcia";
    WordOf("maria", " garcia");
  }

  lemma PlainNameCapitalized()
    ensures Capitalize("maria") == "Maria"
  {
    assert "maria"[1..] == "aria";
    assert LowerAll("aria") == "aria";
  }

  /** The normaliser's own test on the stripped text agrees with `is_initials` on the input. */
  lemma IsInitialsStripped(s: string)
    ensures IsInitials(Some(Strip(s))) == IsInitials(Some(s))
  {
    StripIdempotent(s);
  }

  /** With neither initials nor a quote match, the name is the capitalised first word. */
  lemma CleanTakesFirstWord(name: Cell, w: string)
    requires name.Some? && !IsInitials(name)
    requires SearchQuote(Strip(name.value), 0).None? && FirstWord(Strip(name.value)) == Some(w)
    ensures CleanFirstName(name) == Ok(Cleaned(Some(Capitalize(w)), true))
  {
    IsInitialsStripped(name.value);
  }

  lemma PlainNameNotInitials()
    ensures !InitialsPattern("maria garcia")
  {
    var s := "maria garcia";
    assert s[3..] != ".";
    ThreeLettersMoreNotInitials(s);
  }

  lemma CleanPlainNameExample()
    ensures CleanFirstName(Some("maria garcia")) == Ok(Cleaned(Some("Maria"), true))
  {
    PlainNameNotInitials();
    NoQuoteStripped("maria garcia");
    PlainNameStrip();
    PlainNameWord();
    PlainNameCapitalized();
    CleanTakesFirstWord(Some("maria garcia"), "maria");
  }

  lemma QuotedNameNotInitials()
    ensures !InitialsPattern("Wen Jing \"David\"")
  {
    var s := "Wen Jing \"David\"";
    assert s[3..] != ".";
    ThreeLettersMoreNotInitials(s);
  }

  lemma QuotedNameMatch()
    ensures QuoteAt("Wen Jing \"David\"", 9) == Some("David")
    ensures forall p :: 0 <= p < 9 ==> QuoteAt("Wen Jing \"David\"", p).None?
  {
    var s := "Wen Jing \"David\"";
    AltAtIff(s, 9, "David", Quotes, Quotes);
    forall p | 0 <= p < 9 ensures QuoteAt(s, p).None? {
      assert s[p] !in Quotes;
    }
  }

  lemma CleanQuotedExample()
    ensures CleanFirstName(Some("Wen Jing \"David\"")) == Ok(Cleaned(Some("David"), true))
  {
    StripTrimmed("Wen Jing \"David\"");
    QuotedNameNotInitials();
    InitialsPatternIff("Wen Jing \"David\"");
    QuotedNameMatch();
    StripTrimmed("David");
    CleanTakesLeftmostQuote(Some("Wen Jing \"David\""), 9, "David");
  }

  lemma CleanMismatchedQuotesExample()
    ensures CleanFirstName(Some("'David\"")) == Ok(Cleaned(Some("David"), true))
  {
    var s := "'David\"";
    assert Strip(s) == s;
    assert !InitialsPattern(s);
    AltAtIff(s, 0, "David", Quotes, Quotes);
    assert Strip("David") == "David";
    CleanTakesLeftmostQuote(Some(s), 0, "David");
  }

  lemma PaddedInitialsStrip()
    ensures Strip(" A.B. ") == "A.B."
  {
    assert " A.B. " == " " + "A.B." + " ";
    StripPadded(" ", "A.B.", " ");
  }

  /** Initials come back stripped and unconfident. */
  lemma CleanKeepsInitials(name: Cell)
    requires IsInitials(name)
    ensures CleanFirstName(name) == Ok(Cleaned(StrippedCell(name), false))
  {
    IsInitialsStripped(name.value);
  }

  lemma PaddedInitialsFacts()
    ensures IsInitials(Some(" A.B. ")) && StrippedCell(Some(" A.B. ")) == Some("A.B.")
  {
    PaddedInitialsStrip();
    InitialsExamples();
  }

  lemma CleanInitialsExample()
    ensures CleanFirstName(Some(" A.B. ")) == Ok(Cleaned(Some("A.B."), false))
    ensures CleanFirstName(None) == Ok(Cleaned(None, false))
    ensures CleanFirstName(Some("  ")).Err?
  {
    PaddedInitialsFacts();
    CleanKeepsInitials(Some(" A.B. "));
    assert IsBlank(Some("  "));
    CleanFirstNameContract(Some("  "));
  }
}
