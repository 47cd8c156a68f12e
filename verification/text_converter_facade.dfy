/** The settings dispatch of the text-to-PEF converter facade: a map of
    string settings is folded, entry by entry and in iteration order, over a
    builder of the conversion configuration. Each of nine exact,
    case-sensitive keys writes one typed field; `duplex`, `date` and the two
    limits coerce their value first; any other key, an unparsable date or an
    unparsable limit aborts the whole call with the first such error. */
module TextConverterFacade {
  import opened Wrappers
  import JavaLang

  // ---------------------------------------------------------------------------
  // The key table
  // ---------------------------------------------------------------------------

  const KeyTitle: string := "title"
  const KeyAuthor: string := "author"
  const KeyIdentifier: string := "identifier"
  const KeyMode: string := "mode"
  const KeyLanguage: string := "language"
  const KeyDuplex: string := "duplex"
  const KeyDate: string := "date"
  const KeyRowsLimit: string := "rows-limit"
  const KeyColsLimit: string := "cols-limit"

  /** The builder fields a setting can write; `Mode` is the builder's converter id. */
  datatype Field = Title | Author | Identifier | Mode | Language | Duplex | Date | RowsLimit | ColsLimit

  /** The settings key that addresses each field. */
  function KeyOf(f: Field): string {
    match f
    case Title => KeyTitle
    case Author => KeyAuthor
    case Identifier => KeyIdentifier
    case Mode => KeyMode
    case Language => KeyLanguage
    case Duplex => KeyDuplex
    case Date => KeyDate
    case RowsLimit => KeyRowsLimit
    case ColsLimit => KeyColsLimit
  }

  /** The field a key addresses, found by exact string comparison as the
      `switch` on the key does; `None` for every other key. */
  function FieldOf(key: string): (r: Option<Field>)
    ensures r.Some? ==> KeyOf(r.value) == key
    ensures r.None? ==> forall f: Field :: KeyOf(f) != key
  {
    if key == KeyTitle then Some(Title)
    else if key == KeyAuthor then Some(Author)
    else if key == KeyIdentifier then Some(Identifier)
    else if key == KeyMode then Some(Mode)
    else if key == KeyLanguage then Some(Language)
    else if key == KeyDuplex then Some(Duplex)
    else if key == KeyDate then Some(Date)
    else if key == KeyRowsLimit then Some(RowsLimit)
    else if key == KeyColsLimit then Some(ColsLimit)
    else None
  }

  /** The key table is a bijection between the nine fields and their keys. */
  lemma KeyTableBijective(f: Field, key: string)
    ensures FieldOf(KeyOf(f)) == Some(f)
    ensures FieldOf(key) == Some(f) <==> KeyOf(f) == key
  {
  }

  /** Key matching is case-sensitive: a recognised key spelt with a capital
      letter is an unknown key. */
  lemma KeysAreCaseSensitive()
    ensures FieldOf("Title") == None
    ensures FieldOf("DUPLEX") == None
    ensures FieldOf("Rows-Limit") == None
    ensures FieldOf("converterId") == None
  {
  }

  // ---------------------------------------------------------------------------
  // The configuration being built
  // ---------------------------------------------------------------------------

  /** A parsed date: the instant a `java.util.Date` holds, in milliseconds
      since the epoch. */
  datatype Timestamp = Timestamp(epochMillis: int)

  /** The date parser the `date` setting goes through (the shared
      `yyyy-MM-dd` `SimpleDateFormat`): `None` where it throws `ParseException`. */
  type DateParser = string -> Option<Timestamp>

  /** The builder's state: one optional entry per field, `None` where no
      setting has written the field (the builder then keeps its default). */
  datatype Config = Config(
    title: Option<string>,
    author: Option<string>,
    identifier: Option<string>,
    converterId: Option<string>,
    language: Option<string>,
    duplex: Option<bool>,
    date: Option<Timestamp>,
    rowsLimit: Option<int>,
    colsLimit: Option<int>)

  /** A freshly created builder: no field written. */
  const Unset: Config := Config(None, None, None, None, None, None, None, None, None)

  /** A field's content, whatever the field's type. */
  datatype Value = Text(text: string) | Flag(flag: bool) | When(when: Timestamp) | Number(number: int)

  /** Field-indexed view of a configuration. */
  function Get(c: Config, f: Field): Option<Value> {
    match f
    case Title => if c.title.Some? then Some(Text(c.title.value)) else None
    case Author => if c.author.Some? then Some(Text(c.author.value)) else None
    case Identifier => if c.identifier.Some? then Some(Text(c.identifier.value)) else None
    case Mode => if c.converterId.Some? then Some(Text(c.converterId.value)) else None
    case Language => if c.language.Some? then Some(Text(c.language.value)) else None
    case Duplex => if c.duplex.Some? then Some(Flag(c.duplex.value)) else None
    case Date => if c.date.Some? then Some(When(c.date.value)) else None
    case RowsLimit => if c.rowsLimit.Some? then Some(Number(c.rowsLimit.value)) else None
    case ColsLimit => if c.colsLimit.Some? then Some(Number(c.colsLimit.value)) else None
  }

  /** Two configurations are equal exactly when they agree on every field. */
  lemma ConfigExtensional(a: Config, b: Config)
    requires forall f: Field :: Get(a, f) == Get(b, f)
    ensures a == b
  {
    assert Get(a, Title) == Get(b, Title);
    assert Get(a, Author) == Get(b, Author);
    assert Get(a, Identifier) == Get(b, Identifier);
    assert Get(a, Mode) == Get(b, Mode);
    assert Get(a, Language) == Get(b, Language);
    assert Get(a, Duplex) == Get(b, Duplex);
    assert Get(a, Date) == Get(b, Date);
    assert Get(a, RowsLimit) == Get(b, RowsLimit);
    assert Get(a, ColsLimit) == Get(b, ColsLimit);
  }

  // ---------------------------------------------------------------------------
  // Coercions and errors
  // ---------------------------------------------------------------------------

  /** The errors the loop raises, each an `IllegalArgumentException` in
      Java (`NumberFormatException` is one). */
  datatype Error =
    | UnknownOption(key: string)
    | InvalidDate(value: string)
    | InvalidNumber(key: string, value: string)

  /** The fields that store their setting's text verbatim. */
  predicate IsTextField(f: Field) {
    f == Title || f == Author || f == Identifier || f == Mode || f == Language
  }

  /** `v` has the type of field `f`'s builder setter. */
  predicate OfFieldType(f: Field, v: Value) {
    match f
    case Duplex => v.Flag?
    case Date => v.When?
    case RowsLimit | ColsLimit => v.Number?
    case _ => v.Text?
  }

  /** The per-key coercion table: the value a setting writes into its field,
      or `None` when the coercion throws. Only a date the parser rejects and
      a limit `Integer.parseInt` rejects fail; text is stored verbatim, and
      `duplex` is true exactly for "true" in any mix of cases. */
  function Coerce(f: Field, value: string, parseDate: DateParser): (r: Option<Value>)
    ensures r.None? <==> (f == Date && parseDate(value).None?)
                         || ((f == RowsLimit || f == ColsLimit) && JavaLang.ParseInt(value).None?)
    ensures r.Some? ==> OfFieldType(f, r.value)
    ensures IsTextField(f) ==> r == Some(Text(value))
    ensures f == Duplex ==> r.Some? && (r.value.flag <==>
              |value| == 4 && forall j :: 0 <= j < 4 ==> JavaLang.ToLower(value[j]) == "true"[j])
    ensures f == Date && r.Some? ==> Some(r.value.when) == parseDate(value)
    ensures (f == RowsLimit || f == ColsLimit) && r.Some? ==> Some(r.value.number) == JavaLang.ParseInt(value)
  {
    match f
    case Duplex => Some(Flag(JavaLang.EqualsIgnoreCase("true", value)))
    case Date => if parseDate(value).Some? then Some(When(parseDate(value).value)) else None
    case RowsLimit | ColsLimit =>
      if JavaLang.ParseInt(value).Some? then Some(Number(JavaLang.ParseInt(value).value)) else None
    case _ => Some(Text(value))
  }

  /** The error one entry raises, whatever state the builder is in; `None`
      for an entry that is accepted. */
  function EntryError(key: string, value: string, parseDate: DateParser): Option<Error> {
    match FieldOf(key)
    case None => Some(UnknownOption(key))
    case Some(f) =>
      if Coerce(f, value, parseDate).Some? then None
      else if f == Date then Some(InvalidDate(value))
      else Some(InvalidNumber(key, value))
  }

  predicate Rejects(entry: (string, string), parseDate: DateParser) {
    EntryError(entry.0, entry.1, parseDate).Some?
  }

  // ---------------------------------------------------------------------------
  // The dispatch loop
  // ---------------------------------------------------------------------------

  /** One iteration of the loop: the `switch` on the key, writing the
      builder field it selects or throwing. A rejected entry fails whatever
      the builder holds; an accepted one writes exactly its own field, with
      the coerced value, and leaves every other field as it was. */
  function Apply(c: Config, key: string, value: string, parseDate: DateParser): (r: Result<Config, Error>)
    ensures r.Failure? <==> EntryError(key, value, parseDate).Some?
    ensures r.Failure? ==> EntryError(key, value, parseDate) == Some(r.error)
    ensures r.Success? ==> FieldOf(key).Some?
                           && Get(r.value, FieldOf(key).value) == Coerce(FieldOf(key).value, value, parseDate)
                           && forall f: Field :: f != FieldOf(key).value ==> Get(r.value, f) == Get(c, f)
  {
    if key == KeyTitle then Success(c.(title := Some(value)))
    else if key == KeyAuthor then Success(c.(author := Some(value)))
    else if key == KeyIdentifier then Success(c.(identifier := Some(value)))
    else if key == KeyMode then Success(c.(converterId := Some(value)))
    else if key == KeyLanguage then Success(c.(language := Some(value)))
    else if key == KeyDuplex then Success(c.(duplex := Some(JavaLang.EqualsIgnoreCase("true", value))))
    else if key == KeyDate then
      match parseDate(value)
      case Some(d) => Success(c.(date := Some(d)))
      case None => Failure(InvalidDate(value))
    else if key == KeyRowsLimit then
      match JavaLang.ParseInt(value)
      case Some(n) => Success(c.(rowsLimit := Some(n)))
      case None => Failure(InvalidNumber(key, value))
    else if key == KeyColsLimit then
      match JavaLang.ParseInt(value)
      case Some(n) => Success(c.(colsLimit := Some(n)))
      case None => Failure(InvalidNumber(key, value))
    else Failure(UnknownOption(key))
  }

  /** The value of the last entry for `key`, if any: the entry whose write
      the builder keeps. */
  function Lookup(settings: seq<(string, string)>, key: string): (r: Option<string>)
    ensures r.Some? <==> exists i :: 0 <= i < |settings| && settings[i].0 == key
  {
    if |settings| == 0 then None
    else if settings[|settings| - 1].0 == key then Some(settings[|settings| - 1].1)
    else Lookup(settings[..|settings| - 1], key)
  }

  /** What a field holds after all of `settings` has been written over `c`. */
  function Written(c: Config, settings: seq<(string, string)>, f: Field, parseDate: DateParser): Option<Value> {
    match Lookup(settings, KeyOf(f))
    case None => Get(c, f)
    case Some(v) => Coerce(f, v, parseDate)
  }

  /** `FirstRejected(settings, i)`: entry `i` is the first entry the loop rejects. */
  predicate FirstRejected(settings: seq<(string, string)>, i: int, parseDate: DateParser) {
    && 0 <= i < |settings|
    && Rejects(settings[i], parseDate)
    && forall j :: 0 <= j < i ==> !Rejects(settings[j], parseDate)
  }

  /** The loop over the settings, starting from builder state `c`: it stops
      at the first rejected entry and reports that entry's error; otherwise
      every field holds the coercion of the last value written for it, or
      what it held before. */
  function ApplyAll(c: Config, settings: seq<(string, string)>, parseDate: DateParser): (r: Result<Config, Error>)
    ensures r.Failure? <==> exists i :: 0 <= i < |settings| && Rejects(settings[i], parseDate)
    ensures r.Failure? ==> exists i :: FirstRejected(settings, i, parseDate)
                                       && EntryError(settings[i].0, settings[i].1, parseDate) == Some(r.error)
    ensures r.Success? ==> forall f: Field :: Get(r.value, f) == Written(c, settings, f, parseDate)
    decreases |settings|
  {
    if |settings| == 0 then Success(c)
    else
      var prefix := settings[..|settings| - 1];
      var last := settings[|settings| - 1];
      assert forall j :: 0 <= j < |prefix| ==> prefix[j] == settings[j];
      var c' :- ApplyAll(c, prefix, parseDate);
      Apply(c', last.0, last.1, parseDate)
  }

  /** No two entries share a key, as in a `Map`. */
  predicate DistinctKeys(settings: seq<(string, string)>) {
    forall i, j :: 0 <= i < j < |settings| ==> settings[i].0 != settings[j].0
  }

  /** `parseTextFile`'s settings loop, up to (and not including) building
      the text handler. `settings` lists the map's entries in iteration
      order. The call fails exactly when some entry is rejected, with the
      error of the first one; otherwise the configuration has exactly the
      fields whose keys occur set, each to the coercion of its value. */
  function Dispatch(settings: seq<(string, string)>, parseDate: DateParser): (r: Result<Config, Error>)
    requires DistinctKeys(settings)
    ensures r.Failure? <==> exists i :: 0 <= i < |settings| && Rejects(settings[i], parseDate)
    ensures r.Failure? ==> exists i :: FirstRejected(settings, i, parseDate)
                                       && EntryError(settings[i].0, settings[i].1, parseDate) == Some(r.error)
    ensures r.Success? ==> forall f: Field ::
              (Get(r.value, f).Some? <==> exists i :: 0 <= i < |settings| && settings[i].0 == KeyOf(f))
    ensures r.Success? ==> forall f: Field, i :: 0 <= i < |settings| && settings[i].0 == KeyOf(f) ==>
              Get(r.value, f) == Coerce(f, settings[i].1, parseDate)
  {
    var r := ApplyAll(Unset, settings, parseDate);
    if r.Success? then
      AcceptedEntriesWritten(settings, parseDate, r.value);
      r
    else r
  }

  /** After a successful loop from a fresh builder, the field an entry
      addresses holds that entry's coerced value. */
  lemma AcceptedEntriesWritten(settings: seq<(string, string)>, parseDate: DateParser, c: Config)
    requires DistinctKeys(settings)
    requires forall f: Field :: Get(c, f) == Written(Unset, settings, f, parseDate)
    ensures forall f: Field, i :: 0 <= i < |settings| && settings[i].0 == KeyOf(f) ==>
              Get(c, f) == Coerce(f, settings[i].1, parseDate)
  {
    forall f: Field, i | 0 <= i < |settings| && settings[i].0 == KeyOf(f)
      ensures Get(c, f) == Coerce(f, settings[i].1, parseDate)
    {
      LookupDistinct(settings, i);
    }
  }

  /** With distinct keys, the value looked up for an entry's key is that entry's value. */
  lemma {:induction false} LookupDistinct(settings: seq<(string, string)>, i: int)
    requires DistinctKeys(settings) && 0 <= i < |settings|
    ensures Lookup(settings, settings[i].0) == Some(settings[i].1)
    decreases |settings|
  {
    if i < |settings| - 1 {
      var prefix := settings[..|settings| - 1];
      assert prefix[i] == settings[i];
      LookupDistinct(prefix, i);
    }
  }
}
