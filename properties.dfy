/** Properties that relate several operations of the page builder. */
module Properties {
  import opened Text
  import opened Json
  import opened Zootopia

  /** The strings that pass through `format_value` untouched are exactly the four
      spellings of "N/A" that differ only in case. */
  lemma SentinelForms(s: string)
    ensures IsSentinel(s) <==> s == "n/a" || s == "n/A" || s == "N/a" || s == "N/A"
  {
    assert Lower(DefaultNaValue) == "n/a";
    if IsSentinel(s) {
      var l := Lower(s);
      assert l == "n/a";
      assert l[0] == ToLower(s[0]) && l[1] == ToLower(s[1]) && l[2] == ToLower(s[2]);
      assert s == [s[0], s[1], s[2]];
    } else {
      assert Lower("n/a") == "n/a" && Lower("n/A") == "n/a";
      assert Lower("N/a") == "n/a" && Lower("N/A") == "n/a";
    }
  }

  /** Character by character, `format_value` of a str that is not "N/A": the first
      letter of each word upper-case, the other letters lower-case, and an s right
      after a typographic apostrophe lower-case. */
  lemma FormatValueAt(s: string, i: nat)
    requires !IsSentinel(s) && i < |s|
    ensures FormatValue(Str(s)).s[i] ==
      if i > 0 && s[i - 1] == '\U{2019}' && ToLower(s[i]) == 's' then 's'
      else if i > 0 && IsCased(s[i - 1]) then ToLower(s[i])
      else ToUpper(s[i])
  {
    var t := Title(s);
    FixPossessiveAt(t);
    assert t[i] == if i > 0 && IsCased(s[i - 1]) then ToLower(s[i]) else ToUpper(s[i]);
    if i > 0 {
      assert t[i - 1] == if i > 1 && IsCased(s[i - 2]) then ToLower(s[i - 1]) else ToUpper(s[i - 1]);
      if s[i - 1] == '\U{2019}' && ToLower(s[i]) == 's' {
        SameLowerSameUpper(s[i], 's');
      }
    }
  }

  /** Formatting a formatted value changes nothing. */
  lemma FormatValueIdempotent(v: Value)
    ensures FormatValue(FormatValue(v)) == FormatValue(v)
  {
    if v.Str? && !IsSentinel(v.s) {
      var r := FormatValue(v).s;
      assert !IsSentinel(r);
      TitleIgnoresCase(r, v.s);
    }
  }

  /** The text of a formatted scalar never holds two upper-case letters in a row. */
  lemma FormattedScalarNoUpperPair(v: Value)
    requires IsScalar(FormatValue(v))
    ensures NoUpperPair(Display(FormatValue(v)))
  {
    if !v.Str? {
      ScalarDisplayNoUpperPair(v);
    } else if IsSentinel(v.s) {
      SentinelForms(v.s);
    } else {
      var t := Title(v.s);
      var r := FixPossessive(t);
      assert FormatValue(v) == Str(r);
      TitleNoUpperPair(v.s);
      FixPossessiveAt(t);
      forall i | 0 < i < |r| ensures !(IsUpper(r[i - 1]) && IsUpper(r[i])) {
        assert r[i] == if t[i - 1] == '\U{2019}' && t[i] == 'S' then 's' else t[i];
        assert r[i - 1] == if i - 1 > 0 && t[i - 2] == '\U{2019}' && t[i - 1] == 'S' then 's' else t[i - 1];
      }
    }
  }

  /** A str that is not "N/A" is title-cased and then corrected. */
  lemma FormatsNonSentinel(s: string)
    requires !IsSentinel(s)
    ensures FormatValue(Str(s)) == Str(FixPossessive(Title(s)))
  {
  }

  lemma DarwinsFoxTitle()
    ensures Title("darwin\U{2019}s fox") == "Darwin\U{2019}S Fox"
  {
  }

  lemma DarwinsFoxFix()
    ensures FixPossessive("Darwin\U{2019}S Fox") == "Darwin\U{2019}s Fox"
  {
    FixPossessiveOnce("Darwin", " Fox");
    assert "Darwin" + UpperPossessive + " Fox" == "Darwin\U{2019}S Fox";
  }

  /** The example of the apostrophe correction. */
  lemma DarwinsFox()
    ensures FormatValue(Str("darwin\U{2019}s fox")) == Str("Darwin\U{2019}s Fox")
  {
    FormatsNonSentinel("darwin\U{2019}s fox");
    DarwinsFoxTitle();
    DarwinsFoxFix();
  }

  lemma AsciiApostropheTitle()
    ensures Title("darwin's fox") == "Darwin'S Fox"
  {
  }

  lemma AsciiApostropheFix()
    ensures FixPossessive("Darwin'S Fox") == "Darwin'S Fox"
  {
    FixPossessiveNone("Darwin'S Fox");
  }

  /** Only the typographic apostrophe is corrected: after an ASCII apostrophe the
      letter stays capitalised. */
  lemma AsciiApostropheKeepsCapital()
    ensures FormatValue(Str("darwin's fox")) == Str("Darwin'S Fox")
  {
    FormatsNonSentinel("darwin's fox");
    AsciiApostropheTitle();
    AsciiApostropheFix();
  }
}

/** What the page holds: the cards in order, and where placeholders can remain. */
module PageProperties {
  import opened Wrappers
  import opened Text
  import opened Json
  import opened Zootopia
  import opened Properties

  /** Card `i` stands between the cards before it and the cards after it, with a
      blank line on each side where there are neighbours. */
  lemma CardsInOrder(animals: seq<AnimalInfo>, i: nat)
    requires i < |animals|
    ensures CardsHtml(animals) ==
      (if i > 0 then CardsHtml(animals[..i]) + CardSeparator else "")
      + Card(animals[i])
      + (if i + 1 < |animals| then CardSeparator + CardsHtml(animals[i + 1..]) else "")
  {
    var cs := Cards(animals);
    MapSlice(Card, animals, 0, i);
    MapSlice(Card, animals, i + 1, |animals|);
    assert animals[0..i] == animals[..i] && cs[0..i] == cs[..i];
    assert animals[i + 1..|animals|] == animals[i + 1..] && cs[i + 1..|cs|] == cs[i + 1..];
    JoinAround(cs, CardSeparator, i);
  }

  /** Every field of the record is a scalar (none is a list or a dict). */
  predicate ScalarFields(a: AnimalInfo)
  {
    IsScalar(a.name) && IsScalar(a.diet) && IsScalar(a.location) && IsScalar(a.animalType)
  }

  /** The text of each scalar field of a normalised record holds no two upper-case
      letters in a row. */
  lemma NormalizedTextNoUpperPair(record: Value, a: AnimalInfo)
    requires CreateTemplateDict(record) == Ok(a) && ScalarFields(a)
    ensures NoUpperPair(Display(a.name)) && NoUpperPair(Display(a.diet))
    ensures NoUpperPair(Display(a.location)) && NoUpperPair(Display(a.animalType))
  {
    assert IsSentinel(DefaultNaValue);
    var fields := record.fields;
    var traits := Get(fields, "characteristics").value.fields;
    var name := GetOr(fields, "name", NotAvailable);
    var location := if HasLocations(fields) then Get(fields, "locations").value.items[0] else NotAvailable;
    var diet := GetOr(traits, "diet", NotAvailable);
    var kind := GetOr(traits, "type", NotAvailable);
    assert a.name == FormatValue(name) && a.location == FormatValue(location);
    assert a.diet == FormatValue(diet) && a.animalType == FormatValue(kind);
    FormattedScalarNoUpperPair(name);
    FormattedScalarNoUpperPair(location);
    FormattedScalarNoUpperPair(diet);
    FormattedScalarNoUpperPair(kind);
  }

  /** A piece of card markup: free of the letter 'R', and bounded by characters
      that do not occur in the placeholder. */
  predicate Markup(m: string)
  {
    m != [] && 'R' !in m && m[0] in "<>" && m[|m| - 1] in "> "
  }

  /** The markup that opens and closes a card. */
  lemma CardEdgeMarkup()
    ensures Markup(CardOpen) && Markup(CardClose)
  {
    assert CardOpen[0] == '<' && CardOpen[|CardOpen| - 1] == '>';
  }

  /** The markup that labels the fields of a card. */
  lemma CardLabelMarkup()
    ensures Markup(DietLabel) && Markup(LocationLabel) && Markup(TypeLabel)
  {
    assert DietLabel[0] == '<' && DietLabel[|DietLabel| - 1] == ' ';
  }

  /** Markup holds no placeholder. */
  lemma MarkupNoPlaceholder(m: string)
    requires Markup(m)
    ensures !Contains(m, HtmlPlaceholderText)
  {
    assert HtmlPlaceholderText[2] == 'R';
    MissingCharNotContained(m, HtmlPlaceholderText, 2);
  }

  /** The placeholder holds two upper-case letters in a row and none of the
      characters that bound markup. */
  lemma PlaceholderChars()
    ensures var p := HtmlPlaceholderText; p[2] == 'R' && p[3] == 'E'
    ensures var p := HtmlPlaceholderText; '>' !in p && '<' !in p && ' ' !in p
  {
  }

  /** Appending a field text and then markup to a placeholder-free string that
      ends in markup keeps it placeholder-free. */
  lemma AppendField(c: string, x: string, m: string)
    requires !Contains(c, HtmlPlaceholderText) && c != [] && c[|c| - 1] in "> "
    requires NoUpperPair(x) && Markup(m)
    ensures var r := c + x + m; !Contains(r, HtmlPlaceholderText) && r[|r| - 1] in "> "
  {
    var p := HtmlPlaceholderText;
    PlaceholderChars();
    NoUpperPairNotContained(x, p, 3);
    MarkupNoPlaceholder(m);
    ConcatNotContained(c, x, p);
    var cx := c + x;
    assert cx[|cx| - 1] in "> " || x[|x| - 1] == cx[|cx| - 1];
    ConcatNotContained(cx, m, p);
  }

  /** A card whose field texts hold no two upper-case letters in a row does not
      contain the placeholder. */
  lemma CardNoPlaceholder(a: AnimalInfo)
    requires NoUpperPair(Display(a.name)) && NoUpperPair(Display(a.diet))
    requires NoUpperPair(Display(a.location)) && NoUpperPair(Display(a.animalType))
    ensures !Contains(Card(a), HtmlPlaceholderText)
  {
    CardEdgeMarkup();
    CardLabelMarkup();
    MarkupNoPlaceholder(CardOpen);
    var c1 := CardOpen + Display(a.name) + DietLabel;
    AppendField(CardOpen, Display(a.name), DietLabel);
    var c2 := c1 + Display(a.diet) + LocationLabel;
    AppendField(c1, Display(a.diet), LocationLabel);
    var c3 := c2 + Display(a.location) + TypeLabel;
    AppendField(c2, Display(a.location), TypeLabel);
    AppendField(c3, Display(a.animalType), CardClose);
  }

  /** A join of strings that all begin with `first` and end with `last`. */
  lemma {:induction false} JoinBounds(parts: seq<string>, sep: string, first: char, last: char)
    requires parts != []
    requires forall i | 0 <= i < |parts| :: |parts[i]| > 0 && parts[i][0] == first && parts[i][|parts[i]| - 1] == last
    ensures var j := Join(parts, sep); |j| > 0 && j[0] == first && j[|j| - 1] == last
  {
    if |parts| > 1 {
      JoinBounds(parts[1..], sep, first, last);
    }
  }

  /** Cards that hold no placeholder join into a card string that holds none and
      that begins with '<' and ends with '>'. */
  lemma CardsHtmlNoPlaceholder(animals: seq<AnimalInfo>)
    requires animals != []
    requires forall i | 0 <= i < |animals| :: !Contains(Card(animals[i]), HtmlPlaceholderText)
    ensures var h := CardsHtml(animals);
      && !Contains(h, HtmlPlaceholderText) && |h| > 0 && h[0] == '<' && h[|h| - 1] == '>'
  {
    var p := HtmlPlaceholderText;
    var cs := Cards(animals);
    assert '\n' !in p;
    assert !Contains(CardSeparator, p);
    JoinNotContained(cs, CardSeparator, p);
    forall i | 0 <= i < |cs| ensures |cs[i]| > 0 && cs[i][0] == '<' && cs[i][|cs[i]| - 1] == '>' {
      CardDelimited(animals[i]);
    }
    JoinBounds(cs, CardSeparator, '<', '>');
  }

  /** Substituting a placeholder-free text bounded by '<' and '>' leaves no
      placeholder in any template. */
  lemma SubstituteNoPlaceholder(template: Option<string>, cards: string)
    requires !Contains(cards, HtmlPlaceholderText)
    requires |cards| > 0 && cards[0] == '<' && cards[|cards| - 1] == '>'
    ensures !Contains(Substitute(template, cards), HtmlPlaceholderText)
  {
    var p := HtmlPlaceholderText;
    assert '<' !in p && '>' !in p;
    assert !Contains("", p);
    if template.Some? && Contains(template.value, p) {
      var r := Substitute(template, cards);
      JoinNotContained(Split(template.value, p), cards, p);
    }
  }

  /** With at least one animal and no list or dict among the fields, the page holds
      no placeholder: each card begins with '<' and ends with '>', so a placeholder
      cannot straddle a card and the template text around it. */
  lemma NoPlaceholderLeft(template: Option<string>, data: Option<Value>)
    requires ListForTemplate(data).Ok? && ListForTemplate(data).value != []
    requires forall i | 0 <= i < |ListForTemplate(data).value| :: ScalarFields(ListForTemplate(data).value[i])
    ensures UpdatedHtml(template, data).Ok?
    ensures !Contains(UpdatedHtml(template, data).value, HtmlPlaceholderText)
  {
    var animals := ListForTemplate(data).value;
    var records := Iterate(data).value;
    NormalizeRecordsSpec(records);
    forall i | 0 <= i < |animals| ensures !Contains(Card(animals[i]), HtmlPlaceholderText) {
      NormalizedTextNoUpperPair(records[i], animals[i]);
      CardNoPlaceholder(animals[i]);
    }
    CardsHtmlNoPlaceholder(animals);
    if template.Some? {
      SubstituteNoPlaceholder(template, CardsHtml(animals));
    }
  }

  /** With an empty list of animals the card string is empty. */
  lemma NoAnimalsPage(template: string)
    ensures UpdatedHtml(Some(template), Some(List([]))) == Ok(Substitute(Some(template), ""))
  {
    assert ListForTemplate(Some(List([]))) == Ok([]);
    assert CardsHtml([]) == "";
  }

  lemma PrefixOfShifted(c: char, pat: string, tail: string)
    ensures ([c] + pat + tail)[..|pat|] == ([c] + pat)[..|pat|]
    ensures ([c] + pat + tail)[1..] == pat + tail
  {
  }

  lemma ReplaceSkipsChar(c: char, pat: string, tail: string, rep: string)
    requires pat != [] && ([c] + pat)[..|pat|] != pat && |tail| < |pat|
    ensures ReplaceAll([c] + pat + tail, pat, rep) == [c] + ReplaceAll(pat + tail, pat, rep)
  {
    PrefixOfShifted(c, pat, tail);
  }

  lemma ReplaceWholeThenShort(pat: string, tail: string, rep: string)
    requires pat != [] && |tail| < |pat|
    ensures ReplaceAll(pat + tail, pat, rep) == rep + tail
  {
    var u := pat + tail;
    assert u[..|pat|] == pat && u[|pat|..] == tail;
  }

  /** One character, then the pattern, then a tail too short to hold it: only the
      one occurrence is replaced. */
  lemma ReplaceAfterOneChar(c: char, pat: string, tail: string, rep: string)
    requires pat != [] && ([c] + pat)[..|pat|] != pat && |tail| < |pat|
    ensures ReplaceAll([c] + pat + tail, pat, rep) == [c] + (rep + tail)
  {
    ReplaceSkipsChar(c, pat, tail, rep);
    ReplaceWholeThenShort(pat, tail, rep);
  }

  /** The first character of a pattern, the pattern, then the rest of the pattern:
      removing the one occurrence found leaves the pattern. */
  lemma ReappearingReplace(pat: string)
    requires |pat| >= 2 && ([pat[0]] + pat)[..|pat|] != pat
    ensures Contains([pat[0]] + pat + pat[1..], pat)
    ensures ReplaceAll([pat[0]] + pat + pat[1..], pat, "") == pat
  {
    var t := [pat[0]] + pat + pat[1..];
    assert t[1..1 + |pat|] == pat;
    assert OccursAt(t, pat, 1);
    ReplaceAfterOneChar(pat[0], pat, pat[1..], "");
    assert [pat[0]] + ("" + pat[1..]) == pat;
  }

  /** Without animals the card string is empty, and the template text on either
      side of a placeholder can join up into a new one: this template still holds a
      placeholder after the substitution. */
  lemma PlaceholderCanReappear()
    ensures var p := HtmlPlaceholderText;
      var template := [p[0]] + p + p[1..];
      && template == "_" + p + "_REPLACE_ANIMALS_INFO__"
      && Contains(template, p)
      && UpdatedHtml(Some(template), Some(List([]))) == Ok(p)
  {
    var p := HtmlPlaceholderText;
    assert ([p[0]] + p)[..|p|][2] == p[1] == '_' != p[2];
    ReappearingReplace(p);
    NoAnimalsPage([p[0]] + p + p[1..]);
  }

  /** A template that is only the placeholder becomes the card string itself. */
  lemma PlaceholderOnlyTemplate(cards: string)
    ensures Substitute(Some(HtmlPlaceholderText), cards) == cards
  {
    var p := HtmlPlaceholderText;
    assert OccursAt(p, p, 0);
    assert p[..|p|] == p && p[|p|..] == [];
  }

  /** A page that could not be built, for want of a template or of the
      placeholder in it, is never saved. */
  lemma NoSaveWithoutPage(template: Option<string>, data: Option<Value>, writeSucceeds: bool)
    requires UpdatedHtml(template, data).Ok?
    requires template.None? || !Contains(template.value, HtmlPlaceholderText)
    ensures !PersistUpdatedHtml(UpdatedHtml(template, data).value, writeSucceeds)
  {
  }
}
