/** The page builder: normalise each animal record to four display fields, render
    one HTML card per animal, and put the cards in place of the placeholder of the
    page template. Loading the JSON data and the template, and writing the page,
    are input and output; their results are the parameters `data` and `template`. */
module Zootopia {
  import opened Wrappers
  import opened Text
  import opened Json

  const DefaultNaValue: string := "N/A"
  const HtmlPlaceholderText: string := "__REPLACE_ANIMALS_INFO__"

  /** A typographic apostrophe (U+2019) followed by a capital S, and its correction. */
  const UpperPossessive: string := "\U{2019}S"
  const LowerPossessive: string := "\U{2019}s"

  /** The value a missing field takes. */
  const NotAvailable: Value := Str(DefaultNaValue)

  /** A str whose lower-case form is that of the sentinel "N/A". */
  predicate IsSentinel(s: string)
  {
    Lower(s) == Lower(DefaultNaValue)
  }

  /** `title_cased_str.replace("’S", "’s")` */
  function FixPossessive(t: string): (r: string)
  {
    ReplaceAll(t, UpperPossessive, LowerPossessive)
  }

  /** Character by character, the correction lowers exactly the S of each "’S". */
  lemma {:induction false} FixPossessiveAt(t: string)
    ensures |FixPossessive(t)| == |t|
    ensures forall i | 0 <= i < |t| ::
      FixPossessive(t)[i] == if i > 0 && t[i - 1] == '\U{2019}' && t[i] == 'S' then 's' else t[i]
    decreases |t|, 1
  {
    if |t| < 2 {
    } else if t[..2] == UpperPossessive {
      FixPossessiveAtMatch(t);
    } else {
      FixPossessiveAtSkip(t);
    }
  }

  /** The step of `FixPossessiveAt` at an occurrence of "’S". */
  lemma {:induction false} FixPossessiveAtMatch(t: string)
    requires |t| >= 2 && t[..2] == UpperPossessive
    ensures |FixPossessive(t)| == |t|
    ensures forall i | 0 <= i < |t| ::
      FixPossessive(t)[i] == if i > 0 && t[i - 1] == '\U{2019}' && t[i] == 'S' then 's' else t[i]
    decreases |t|, 0
  {
    var r := FixPossessive(t);
    var rest := FixPossessive(t[2..]);
    assert t[0] == '\U{2019}' && t[1] == 'S' by {
      assert t[..2][0] == t[0] && t[..2][1] == t[1];
    }
    FixPossessiveAt(t[2..]);
    ReplaceAllAtMatch(t, UpperPossessive, LowerPossessive);
    assert r == LowerPossessive + rest;
    forall i | 0 <= i < |t|
      ensures r[i] == if i > 0 && t[i - 1] == '\U{2019}' && t[i] == 'S' then 's' else t[i]
    {
      if i < 2 {
        assert r[i] == LowerPossessive[i];
      } else {
        assert r[i] == rest[i - 2] && t[2..][i - 2] == t[i];
        if i > 2 {
          assert t[2..][i - 3] == t[i - 1];
        }
      }
    }
  }

  /** The step of `FixPossessiveAt` past a character that does not start "’S". */
  lemma {:induction false} FixPossessiveAtSkip(t: string)
    requires |t| >= 2 && t[..2] != UpperPossessive
    ensures |FixPossessive(t)| == |t|
    ensures forall i | 0 <= i < |t| ::
      FixPossessive(t)[i] == if i > 0 && t[i - 1] == '\U{2019}' && t[i] == 'S' then 's' else t[i]
    decreases |t|, 0
  {
    var r := FixPossessive(t);
    var rest := FixPossessive(t[1..]);
    FixPossessiveAt(t[1..]);
    ReplaceAllPastChar(t, UpperPossessive, LowerPossessive);
    assert r == [t[0]] + rest;
    forall i | 0 <= i < |t|
      ensures r[i] == if i > 0 && t[i - 1] == '\U{2019}' && t[i] == 'S' then 's' else t[i]
    {
      if i > 0 {
        assert r[i] == rest[i - 1] && t[1..][i - 1] == t[i];
        if i > 1 {
          assert t[1..][i - 2] == t[i - 1];
        } else {
          assert t[..2] == [t[0], t[1]];
        }
      }
    }
  }

  /** A prefix without a typographic apostrophe is kept as it is. */
  lemma {:induction false} FixPossessiveSkip(a: string, b: string)
    requires '\U{2019}' !in a
    ensures FixPossessive(a + b) == a + FixPossessive(b)
  {
    if a != [] {
      var s := a + b;
      assert s[0] == a[0];
      if |s| >= 2 {
        assert s[..2][0] == a[0] && UpperPossessive[0] == '\U{2019}';
        assert FixPossessive(s) == [s[0]] + FixPossessive(s[1..]);
        assert s[1..] == a[1..] + b;
        FixPossessiveSkip(a[1..], b);
        assert a == [a[0]] + a[1..];
      } else {
        assert a == s && b == [];
      }
    } else {
      assert a + b == b;
    }
  }

  /** A leading "’S" becomes "’s". */
  lemma FixPossessiveHead(b: string)
    ensures FixPossessive(UpperPossessive + b) == LowerPossessive + FixPossessive(b)
  {
    var s := UpperPossessive + b;
    assert s[..2] == UpperPossessive && s[2..] == b;
  }

  /** A string with one "’S" and no other typographic apostrophe. */
  lemma FixPossessiveOnce(a: string, b: string)
    requires '\U{2019}' !in a && '\U{2019}' !in b
    ensures FixPossessive(a + UpperPossessive + b) == a + LowerPossessive + b
  {
    FixPossessiveSkip(a, UpperPossessive + b);
    FixPossessiveHead(b);
    FixPossessiveSkip(b, []);
    assert b + [] == b;
    assert a + UpperPossessive + b == a + (UpperPossessive + b);
  }

  /** A string without a typographic apostrophe is left as it is. */
  lemma FixPossessiveNone(a: string)
    requires '\U{2019}' !in a
    ensures FixPossessive(a) == a
  {
    FixPossessiveSkip(a, []);
    assert a + [] == a;
  }

  /** The correction keeps the length and the letters, and leaves no "’S" behind. */
  lemma FixPossessiveSpec(t: string)
    ensures |FixPossessive(t)| == |t|
    ensures Lower(FixPossessive(t)) == Lower(t)
    ensures !Contains(FixPossessive(t), UpperPossessive)
  {
    var r := FixPossessive(t);
    FixPossessiveAt(t);
    forall i | 0 <= i < |t| ensures Lower(r)[i] == Lower(t)[i] {
      assert r[i] == if i > 0 && t[i - 1] == '\U{2019}' && t[i] == 'S' then 's' else t[i];
    }
    forall k | 0 <= k <= |r| - 2 ensures !OccursAt(r, UpperPossessive, k) {
      assert r[k..k + 2] == [r[k], r[k + 1]];
      assert r[k] == if k > 0 && t[k - 1] == '\U{2019}' && t[k] == 'S' then 's' else t[k];
      assert r[k + 1] == if t[k] == '\U{2019}' && t[k + 1] == 'S' then 's' else t[k + 1];
    }
  }

  /** `format_value`: a value that is not a str, or a str equal to "N/A" ignoring
      case, is returned unchanged; any other str is title-cased and then every
      "’S" becomes "’s". */
  function FormatValue(v: Value): (r: Value)
    ensures !v.Str? ==> r == v
    ensures v.Str? && IsSentinel(v.s) ==> r == v
    ensures v.Str? && !IsSentinel(v.s) ==>
      && r.Str?
      && |r.s| == |v.s|
      && Lower(r.s) == Lower(v.s)
      && !Contains(r.s, UpperPossessive)
  {
    if v.Str? && !IsSentinel(v.s) then
      var t := Title(v.s);
      LowerTitle(v.s);
      FixPossessiveSpec(t);
      Str(FixPossessive(t))
    else
      v
  }

  // ---------------------------------------------------------------------------
  // Records

  /** The four display fields of one animal (the dict with keys name, diet,
      location and type). */
  datatype AnimalInfo = AnimalInfo(name: Value, diet: Value, location: Value, animalType: Value)

  /** The exceptions the pipeline lets escape. */
  datatype Fault =
    | DataNotIterable            // TypeError: the loaded data is a number or a bool
    | RecordNotObject            // AttributeError: `.get` on a record that is not a dict
    | MissingCharacteristics     // KeyError: `animal_data["characteristics"]`
    | CharacteristicsNotObject   // AttributeError: `.get` on characteristics that are not a dict

  /** `locations` is present, is a list and is not empty. */
  predicate HasLocations(fields: seq<(string, Value)>)
  {
    var l := Get(fields, "locations");
    l.Some? && l.value.List? && |l.value.items| > 0
  }

  /** `create_template_dict` */
  function CreateTemplateDict(record: Value): (r: Result<AnimalInfo, Fault>)
    ensures !record.Obj? ==> r == Err(RecordNotObject)
    ensures record.Obj? && Get(record.fields, "characteristics").None? ==> r == Err(MissingCharacteristics)
    ensures record.Obj? && Get(record.fields, "characteristics").Some? ==>
      (r.Ok? <==> Get(record.fields, "characteristics").value.Obj?)
    ensures record.Obj? && Get(record.fields, "characteristics").Some?
      && !Get(record.fields, "characteristics").value.Obj?
      ==> r == Err(CharacteristicsNotObject)
    ensures r.Err? ==> r.error != DataNotIterable
    ensures r.Ok? ==>
      var fields := record.fields;
      var traits := Get(fields, "characteristics").value.fields;
      && (Get(fields, "name").None? ==> r.value.name == NotAvailable)
      && (Get(fields, "name").Some? ==> r.value.name == FormatValue(Get(fields, "name").value))
      && (HasLocations(fields) ==> r.value.location == FormatValue(Get(fields, "locations").value.items[0]))
      && (!HasLocations(fields) ==> r.value.location == NotAvailable)
      && (Get(traits, "diet").None? ==> r.value.diet == NotAvailable)
      && (Get(traits, "diet").Some? ==> r.value.diet == FormatValue(Get(traits, "diet").value))
      && (Get(traits, "type").None? ==> r.value.animalType == NotAvailable)
      && (Get(traits, "type").Some? ==> r.value.animalType == FormatValue(Get(traits, "type").value))
  {
    assert IsSentinel(DefaultNaValue);
    if !record.Obj? then Err(RecordNotObject)
    else
      var fields := record.fields;
      var name := GetOr(fields, "name", NotAvailable);
      var location := if HasLocations(fields) then Get(fields, "locations").value.items[0] else NotAvailable;
      match Get(fields, "characteristics")
      case None => Err(MissingCharacteristics)
      case Some(Obj(traits)) =>
        var diet := GetOr(traits, "diet", NotAvailable);
        var kind := GetOr(traits, "type", NotAvailable);
        Ok(AnimalInfo(FormatValue(name), FormatValue(diet), FormatValue(location), FormatValue(kind)))
      case Some(_) => Err(CharacteristicsNotObject)
  }

  /** The values `for animal in data` visits once `data` is known not to be None:
      a list gives its items, a dict its keys, a str its characters; JSON null is
      None in Python and gives nothing. */
  function Iterate(data: Option<Value>): (r: Result<seq<Value>, Fault>)
    ensures data.Some? && data.value.List? ==> r == Ok(data.value.items)
    ensures data.None? || data == Some(Null) ==> r == Ok([])
    ensures data.Some? && data.value.Obj? ==>
      var fields := data.value.fields;
      r.Ok? && |r.value| == |fields| && forall i | 0 <= i < |fields| :: r.value[i] == Str(fields[i].0)
    ensures data.Some? && data.value.Str? ==>
      var s := data.value.s;
      r.Ok? && |r.value| == |s| && forall i | 0 <= i < |s| :: r.value[i] == Str([s[i]])
    ensures r.Err? <==> data.Some? && (data.value.Num? || data.value.Bool?)
  {
    match data
    case None => Ok([])
    case Some(Null) => Ok([])
    case Some(List(items)) => Ok(items)
    case Some(Obj(fields)) => Ok(seq(|fields|, i requires 0 <= i < |fields| => Str(fields[i].0)))
    case Some(Str(s)) => Ok(seq(|s|, i requires 0 <= i < |s| => Str([s[i]])))
    case Some(_) => Err(DataNotIterable)
  }

  /** Every record normalised, in order, or the fault of the first record that fails. */
  function NormalizeRecords(records: seq<Value>): (r: Result<seq<AnimalInfo>, Fault>)
  {
    if records == [] then Ok([])
    else
      match CreateTemplateDict(records[0])
      case Err(e) => Err(e)
      case Ok(a) =>
        match NormalizeRecords(records[1..])
        case Err(e) => Err(e)
        case Ok(rest) => Ok([a] + rest)
  }

  /** When every record normalises, the result lists them in input order. */
  lemma {:induction false} NormalizeRecordsOk(records: seq<Value>, animals: seq<AnimalInfo>)
    requires |animals| == |records|
    requires forall i | 0 <= i < |records| :: CreateTemplateDict(records[i]) == Ok(animals[i])
    ensures NormalizeRecords(records) == Ok(animals)
  {
    if records != [] {
      assert CreateTemplateDict(records[0]) == Ok(animals[0]);
      forall i | 0 <= i < |records| - 1
        ensures CreateTemplateDict(records[1..][i]) == Ok(animals[1..][i])
      {
        assert records[1..][i] == records[i + 1] && animals[1..][i] == animals[i + 1];
      }
      NormalizeRecordsOk(records[1..], animals[1..]);
      assert NormalizeRecords(records) == Ok([animals[0]] + animals[1..]);
      assert animals == [animals[0]] + animals[1..];
    }
  }

  /** When record `k` is the first that fails, its fault is the result. */
  lemma {:induction false} NormalizeRecordsErr(records: seq<Value>, k: nat)
    requires k < |records|
    requires forall i | 0 <= i < k :: CreateTemplateDict(records[i]).Ok?
    requires CreateTemplateDict(records[k]).Err?
    ensures NormalizeRecords(records) == Err(CreateTemplateDict(records[k]).error)
  {
    if k > 0 {
      assert CreateTemplateDict(records[0]).Ok?;
      forall i | 0 <= i < k - 1 ensures CreateTemplateDict(records[1..][i]).Ok? {
        assert records[1..][i] == records[i + 1];
      }
      NormalizeRecordsErr(records[1..], k - 1);
    }
  }

  /** Normalising succeeds exactly when every record does, and then keeps the order. */
  lemma {:induction false} NormalizeRecordsSpec(records: seq<Value>)
    ensures NormalizeRecords(records).Ok? <==>
      forall i | 0 <= i < |records| :: CreateTemplateDict(records[i]).Ok?
    ensures NormalizeRecords(records).Ok? ==>
      var animals := NormalizeRecords(records).value;
      |animals| == |records| &&
      forall i | 0 <= i < |records| :: CreateTemplateDict(records[i]) == Ok(animals[i])
  {
    if records != [] {
      NormalizeRecordsSpec(records[1..]);
      if CreateTemplateDict(records[0]).Ok? && NormalizeRecords(records[1..]).Ok? {
        var animals := NormalizeRecords(records).value;
        forall i | 0 <= i < |records| ensures CreateTemplateDict(records[i]) == Ok(animals[i]) {
          if i > 0 {
            assert records[1..][i - 1] == records[i];
          }
        }
      } else if CreateTemplateDict(records[0]).Ok? {
        var i :| 0 <= i < |records[1..]| && CreateTemplateDict(records[1..][i]).Err?;
        assert records[1..][i] == records[i + 1];
      }
    }
  }

  /** What `return_list_for_template` returns for the loaded data. */
  function ListForTemplate(data: Option<Value>): (r: Result<seq<AnimalInfo>, Fault>)
  {
    match Iterate(data)
    case Err(e) => Err(e)
    case Ok(records) => NormalizeRecords(records)
  }

  /** None gives the empty list; a list of records gives one normalised record per
      input record, in the same order, unless some record fails. */
  lemma ListForTemplateSpec(data: Option<Value>)
    ensures data.None? || data == Some(Null) ==> ListForTemplate(data) == Ok([])
    ensures data.Some? && data.value.List? ==>
      var items := data.value.items;
      var r := ListForTemplate(data);
      && (r.Ok? <==> forall i | 0 <= i < |items| :: CreateTemplateDict(items[i]).Ok?)
      && (r.Ok? ==> |r.value| == |items| &&
                    forall i | 0 <= i < |items| :: CreateTemplateDict(items[i]) == Ok(r.value[i]))
  {
    if data.Some? && data.value.List? {
      NormalizeRecordsSpec(data.value.items);
    }
  }

  /** A document that is a non-empty dict or str is iterated as keys or
      characters, which are str values and not records, so the first one fails. */
  lemma NonListDocumentFails(data: Option<Value>)
    requires data.Some? && ((data.value.Obj? && data.value.fields != []) ||
                            (data.value.Str? && data.value.s != []))
    ensures ListForTemplate(data) == Err(RecordNotObject)
  {
    var records := Iterate(data).value;
    assert records[0].Str?;
  }

  /** `return_list_for_template`, given the result of `load_json`: None gives the
      empty list; otherwise each record is normalised and appended in turn. */
  method ReturnListForTemplate(data: Option<Value>) returns (r: Result<seq<AnimalInfo>, Fault>)
    ensures r == ListForTemplate(data)
  {
    if data.None? {
      return Ok([]);
    }
    var records := Iterate(data);
    if records.Err? {
      return Err(records.error);
    }
    var items := records.value;
    var animalsList: seq<AnimalInfo> := [];
    var i := 0;
    while i < |items|
      invariant 0 <= i <= |items|
      invariant |animalsList| == i
      invariant forall j | 0 <= j < i :: CreateTemplateDict(items[j]) == Ok(animalsList[j])
    {
      var processed := CreateTemplateDict(items[i]);
      if processed.Err? {
        NormalizeRecordsErr(items, i);
        return Err(processed.error);
      }
      animalsList := animalsList + [processed.value];
      i := i + 1;
    }
    NormalizeRecordsOk(items, animalsList);
    r := Ok(animalsList);
  }

  // ---------------------------------------------------------------------------
  // Cards

  const CardOpen: string := "<li class=\"cards__item\">" + "<div class=\"card__title\">"
  const DietLabel: string := "</div><p class=\"card__text\">" + "<strong>Diet:</strong> "
  const LocationLabel: string := "<br/><strong>Location:</strong> "
  const TypeLabel: string := "<br/><strong>Type:</strong> "
  const CardClose: string := "<br/></p></li>"
  const CardSeparator: string := "\n\n"

  /** The card of one animal: fixed markup around the text of its four fields. */
  function Card(a: AnimalInfo): (card: string)
  {
    CardOpen + Display(a.name) + DietLabel + Display(a.diet) + LocationLabel
      + Display(a.location) + TypeLabel + Display(a.animalType) + CardClose
  }

  /** Every card is an element: it opens with '<' and closes with '>'. */
  lemma CardDelimited(a: AnimalInfo)
    ensures var c := Card(a); |c| > 0 && c[0] == '<' && c[|c| - 1] == '>'
  {
    var c := Card(a);
    assert CardOpen[0] == '<' && CardClose[|CardClose| - 1] == '>';
    assert c[0] == CardOpen[0] && c[|c| - 1] == CardClose[|CardClose| - 1];
  }

  /** `f` applied to each element, in order. */
  function Map<T, U>(f: T -> U, xs: seq<T>): (ys: seq<U>)
    ensures |ys| == |xs|
  {
    seq(|xs|, i requires 0 <= i < |xs| => f(xs[i]))
  }

  /** Mapping one more element appends its image. */
  lemma MapAppend<T, U>(f: T -> U, xs: seq<T>, i: nat)
    requires i < |xs|
    ensures Map(f, xs[..i + 1]) == Map(f, xs[..i]) + [f(xs[i])]
  {
    assert xs[..i + 1][i] == xs[i];
  }

  /** Mapping a slice gives the same slice of the mapped sequence. */
  lemma MapSlice<T, U>(f: T -> U, xs: seq<T>, lo: nat, hi: nat)
    requires lo <= hi <= |xs|
    ensures Map(f, xs[lo..hi]) == Map(f, xs)[lo..hi]
  {
    var ys := Map(f, xs);
    forall k | 0 <= k < hi - lo
      ensures Map(f, xs[lo..hi])[k] == ys[lo..hi][k]
    {
      assert xs[lo..hi][k] == xs[lo + k];
    }
  }

  /** One card per animal, in order. */
  function Cards(animals: seq<AnimalInfo>): (cards: seq<string>)
  {
    Map(Card, animals)
  }

  /** `"\n\n".join(animal_strings)` */
  function CardsHtml(animals: seq<AnimalInfo>): (html: string)
  {
    Join(Cards(animals), CardSeparator)
  }

  /** What `create_str_for_template` returns for the loaded data. */
  function StrForTemplate(data: Option<Value>): (r: Result<string, Fault>)
  {
    match ListForTemplate(data)
    case Err(e) => Err(e)
    case Ok(animals) => Ok(CardsHtml(animals))
  }

  /** The card string is empty exactly when there are no animals. */
  lemma {:induction false} CardsHtmlEmpty(animals: seq<AnimalInfo>)
    ensures CardsHtml(animals) == "" <==> animals == []
  {
    if animals != [] {
      var cs := Cards(animals);
      CardDelimited(animals[0]);
      if |cs| == 1 {
        assert CardsHtml(animals) == Card(animals[0]);
      } else {
        assert CardsHtml(animals) == Card(animals[0]) + CardSeparator + Join(cs[1..], CardSeparator);
      }
    }
  }

  /** `create_str_for_template`: one card per animal, appended in order, then joined
      with a blank line between consecutive cards. */
  method CreateStrForTemplate(data: Option<Value>) returns (r: Result<string, Fault>)
    ensures r == StrForTemplate(data)
    ensures r.Ok? ==> (r.value == "" <==> ListForTemplate(data) == Ok([]))
  {
    var animals := ReturnListForTemplate(data);
    if animals.Err? {
      return Err(animals.error);
    }
    var animalsList := animals.value;
    var animalStrings: seq<string> := [];
    for i := 0 to |animalsList|
      invariant animalStrings == Cards(animalsList[..i])
    {
      MapAppend(Card, animalsList, i);
      animalStrings := animalStrings + [Card(animalsList[i])];
    }
    assert animalsList[..|animalsList|] == animalsList;
    CardsHtmlEmpty(animalsList);
    r := Ok(Join(animalStrings, CardSeparator));
  }

  // ---------------------------------------------------------------------------
  // Page

  /** The substitution step of `create_updated_html`: no template gives "", a
      template without the placeholder gives "", and otherwise EVERY occurrence
      of the placeholder is replaced by the card string. */
  function Substitute(template: Option<string>, replacement: string): (r: string)
    ensures template.None? ==> r == ""
    ensures template.Some? && !Contains(template.value, HtmlPlaceholderText) ==> r == ""
    ensures template.Some? && Contains(template.value, HtmlPlaceholderText) ==>
      var pieces := Split(template.value, HtmlPlaceholderText);
      && |pieces| >= 2
      && template.value == Join(pieces, HtmlPlaceholderText)
      && r == Join(pieces, replacement)
      && forall i | 0 <= i < |pieces| :: !Contains(pieces[i], HtmlPlaceholderText)
  {
    match template
    case None => ""
    case Some(html) =>
      if Contains(html, HtmlPlaceholderText) then
        SplitJoin(html, HtmlPlaceholderText);
        ReplaceAllIsJoin(html, HtmlPlaceholderText, replacement);
        SplitPiecesFree(html, HtmlPlaceholderText);
        ContainsIffSplit(html, HtmlPlaceholderText);
        ReplaceAll(html, HtmlPlaceholderText, replacement)
      else
        ""
  }

  /** What `create_updated_html` returns for the loaded template and data. The
      template is checked first: without one, the data is never looked at. */
  function UpdatedHtml(template: Option<string>, data: Option<Value>): (r: Result<string, Fault>)
  {
    if template.None? then Ok("")
    else
      match StrForTemplate(data)
      case Err(e) => Err(e)
      case Ok(cards) => Ok(Substitute(template, cards))
  }

  /** `create_updated_html`, given the result of `load_html` and of `load_json`. */
  method CreateUpdatedHtml(template: Option<string>, data: Option<Value>) returns (r: Result<string, Fault>)
    ensures r == UpdatedHtml(template, data)
    ensures template.None? ==> r == Ok("")
    ensures r.Ok? && template.Some? && !Contains(template.value, HtmlPlaceholderText) ==> r.value == ""
  {
    if template.None? {
      return Ok("");
    }
    var replacement := CreateStrForTemplate(data);
    if replacement.Err? {
      return Err(replacement.error);
    }
    r := Ok(Substitute(template, replacement.value));
  }

  /** The guard of `persist_updated_html`: an empty page is never written and reports
      false; otherwise the result is whether the write succeeded. */
  function PersistUpdatedHtml(html: string, writeSucceeds: bool): (saved: bool)
    ensures html == "" ==> !saved
    ensures html != "" ==> (saved <==> writeSucceeds)
  {
    if html == "" then false else writeSucceeds
  }
}
