/** One record carried all the way from the loaded JSON to the finished page. */
module Scenarios {
  import opened Wrappers
  import opened Text
  import opened Json
  import opened Zootopia
  import opened Properties
  import opened PageProperties

  /** A word that does not start with 'n' or 'N' and holds no right single
      quotation mark is only title-cased. */
  lemma TitledWord(s: string, t: string)
    requires |s| > 0 && ToLower(s[0]) != 'n' && Title(s) == t && '\U{2019}' !in t
    ensures FormatValue(Str(s)) == Str(t)
  {
    assert Lower(s)[0] != Lower(DefaultNaValue)[0];
    FormatsNonSentinel(s);
    FixPossessiveNone(t);
  }

  /** A record as the animals file holds it: a name, a list of locations, and the
      diet and type among its characteristics. */
  function Record(name: string, location: string, diet: string, kind: string): (r: Value)
  {
    Obj([("name", Str(name)),
         ("locations", List([Str(location)])),
         ("characteristics", Obj([("diet", Str(diet)), ("type", Str(kind))]))])
  }

  /** Such a record normalises to its four formatted texts. */
  lemma RecordDict(name: string, location: string, diet: string, kind: string)
    ensures CreateTemplateDict(Record(name, location, diet, kind))
      == Ok(AnimalInfo(FormatValue(Str(name)), FormatValue(Str(diet)),
                       FormatValue(Str(location)), FormatValue(Str(kind))))
  {
    var fields := Record(name, location, diet, kind).fields;
    assert Get(fields, "name") == Some(Str(name));
    assert Get(fields, "locations") == Some(List([Str(location)]));
    assert HasLocations(fields);
    var traits := [("diet", Str(diet)), ("type", Str(kind))];
    assert Get(fields[2..], "characteristics") == Some(Obj(traits));
    assert Get(fields[1..], "characteristics") == Some(Obj(traits));
    assert Get(fields, "characteristics") == Some(Obj(traits));
    assert Get(traits, "diet") == Some(Str(diet));
    assert Get(traits, "type") == Some(Str(kind));
  }

  function FoxRecord(): (r: Value)
  {
    Record("fox", "forest", "omnivore", "mammal")
  }

  function FoxInfo(): (a: AnimalInfo)
  {
    AnimalInfo(Str("Fox"), Str("Omnivore"), Str("Forest"), Str("Mammal"))
  }

  /** The fox's name. */
  lemma FoxName()
    ensures FormatValue(Str("fox")) == Str("Fox")
  {
    TitledWord("fox", "Fox");
  }

  /** The fox's diet. */
  lemma FoxDiet()
    ensures FormatValue(Str("omnivore")) == Str("Omnivore")
  {
    TitledWord("omnivore", "Omnivore");
  }

  /** The fox's location. */
  lemma FoxLocation()
    ensures FormatValue(Str("forest")) == Str("Forest")
  {
    TitledWord("forest", "Forest");
  }

  /** The fox's type. */
  lemma FoxType()
    ensures FormatValue(Str("mammal")) == Str("Mammal")
  {
    TitledWord("mammal", "Mammal");
  }

  /** A list of one record normalises to that record alone. */
  lemma SingleRecordList(record: Value, a: AnimalInfo)
    requires CreateTemplateDict(record) == Ok(a)
    ensures ListForTemplate(Some(List([record]))) == Ok([a])
  {
    assert Iterate(Some(List([record]))) == Ok([record]);
    assert [record][1..] == [] && [a] + [] == [a];
    assert NormalizeRecords([record]) == Ok([a]);
  }

  /** A template that is only the placeholder becomes the card of a single
      record; with scalar fields no placeholder is left. */
  lemma SingleRecordPage(record: Value, a: AnimalInfo)
    requires CreateTemplateDict(record) == Ok(a)
    ensures UpdatedHtml(Some(HtmlPlaceholderText), Some(List([record]))) == Ok(Card(a))
    ensures ScalarFields(a) ==> !Contains(Card(a), HtmlPlaceholderText)
  {
    SingleRecordList(record, a);
    assert Cards([a]) == [Card(a)];
    PlaceholderOnlyTemplate(Card(a));
    if ScalarFields(a) {
      NormalizedTextNoUpperPair(record, a);
      CardNoPlaceholder(a);
    }
  }

  /** The fox record normalises to the fox's title-cased texts. */
  lemma FoxDict()
    ensures CreateTemplateDict(FoxRecord()) == Ok(FoxInfo())
  {
    RecordDict("fox", "forest", "omnivore", "mammal");
    FoxName();
    FoxDiet();
    FoxLocation();
    FoxType();
  }

  /** The page for the fox alone, from a template that is only the placeholder,
      is exactly the fox's card. */
  lemma FoxPage()
    ensures UpdatedHtml(Some(HtmlPlaceholderText), Some(List([FoxRecord()]))) == Ok(Card(FoxInfo()))
  {
    FoxDict();
    SingleRecordPage(FoxRecord(), FoxInfo());
  }

  /** The fox's card, and so the fox's page, holds no placeholder. */
  lemma FoxCardNoPlaceholder()
    ensures !Contains(Card(FoxInfo()), HtmlPlaceholderText)
  {
    var a := FoxInfo();
    assert NoUpperPair(Display(a.name)) && NoUpperPair(Display(a.diet));
    assert NoUpperPair(Display(a.location)) && NoUpperPair(Display(a.animalType));
    CardNoPlaceholder(a);
  }
}
