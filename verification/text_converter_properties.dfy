/** Properties of the settings dispatch that relate several calls or pin
    down the behaviour of single keys. */
module TextConverterProperties {
  import opened Wrappers
  import JavaLang
  import opened TextConverterFacade

  /** A key outside the nine recognised names makes the whole call fail,
      whatever the other entries are; when it is the first entry the loop
      rejects, the error names it. */
  lemma UnknownKeyFails(settings: seq<(string, string)>, i: int, parseDate: DateParser)
    requires DistinctKeys(settings) && 0 <= i < |settings|
    requires FieldOf(settings[i].0).None?
    ensures Dispatch(settings, parseDate).Failure?
    ensures FirstRejected(settings, i, parseDate) ==>
              Dispatch(settings, parseDate) == Failure(UnknownOption(settings[i].0))
  {
  }

  /** At most one entry is the first rejected one. */
  lemma FirstRejectedUnique(settings: seq<(string, string)>, i: int, k: int, parseDate: DateParser)
    requires FirstRejected(settings, i, parseDate) && FirstRejected(settings, k, parseDate)
    ensures i == k
  {
  }

  /** A single accepted entry writes its field of a fresh builder and nothing else. */
  lemma SingleAccepted(f: Field, v: string, parseDate: DateParser, expected: Config)
    requires Coerce(f, v, parseDate).Some?
    requires Get(expected, f) == Coerce(f, v, parseDate)
    requires forall g: Field :: g != f ==> Get(expected, g).None?
    ensures Dispatch([(KeyOf(f), v)], parseDate) == Success(expected)
  {
    var s := [(KeyOf(f), v)];
    KeyTableBijective(f, KeyOf(f));
    assert !Rejects(s[0], parseDate);
    var r := Dispatch(s, parseDate);
    forall g: Field
      ensures Get(r.value, g) == Get(expected, g)
    {
      if g != f {
        KeyTableBijective(g, KeyOf(f));
        assert !exists i :: 0 <= i < |s| && s[i].0 == KeyOf(g);
      }
    }
    ConfigExtensional(r.value, expected);
  }

  /** Fail-fast: the error reported is the error of the first rejected
      entry, so it does not depend on anything after that entry. */
  lemma FailFast(settings: seq<(string, string)>, i: int, parseDate: DateParser)
    requires DistinctKeys(settings) && FirstRejected(settings, i, parseDate)
    ensures Dispatch(settings, parseDate) == Failure(EntryError(settings[i].0, settings[i].1, parseDate).value)
    ensures Dispatch(settings, parseDate) == Dispatch(settings[..i + 1], parseDate)
  {
  }

  /** A date the parser rejects aborts the call: it can never succeed, and
      when the date is the first rejected entry the error carries the value. */
  lemma DateErrorPropagates(settings: seq<(string, string)>, i: int, parseDate: DateParser)
    requires DistinctKeys(settings) && 0 <= i < |settings|
    requires settings[i].0 == KeyDate && parseDate(settings[i].1).None?
    ensures Dispatch(settings, parseDate).Failure?
    ensures FirstRejected(settings, i, parseDate) ==>
              Dispatch(settings, parseDate) == Failure(InvalidDate(settings[i].1))
  {
  }

  /** A date the parser accepts is stored as parsed. */
  lemma DateStored(v: string, parseDate: DateParser)
    requires parseDate(v).Some?
    ensures Dispatch([(KeyDate, v)], parseDate) == Success(Unset.(date := parseDate(v)))
  {
    SingleAccepted(Date, v, parseDate, Unset.(date := parseDate(v)));
  }

  /** `duplex` is set to true exactly when the value is "true" in any mix of
      cases; every other value sets it to false, and never fails. */
  lemma DuplexCoercion(v: string, parseDate: DateParser)
    ensures Dispatch([(KeyDuplex, v)], parseDate)
            == Success(Unset.(duplex := Some(|v| == 4 && forall j :: 0 <= j < 4 ==> JavaLang.ToLower(v[j]) == "true"[j])))
  {
    var b := |v| == 4 && forall j :: 0 <= j < 4 ==> JavaLang.ToLower(v[j]) == "true"[j];
    assert forall j :: 0 <= j < 4 ==> JavaLang.ToLower("true"[j]) == "true"[j];
    SingleAccepted(Duplex, v, parseDate, Unset.(duplex := Some(b)));
  }

  /** Examples of the duplex coercion. */
  lemma DuplexExamples(parseDate: DateParser)
    ensures Dispatch([(KeyDuplex, "TRUE")], parseDate) == Success(Unset.(duplex := Some(true)))
    ensures Dispatch([(KeyDuplex, "True")], parseDate) == Success(Unset.(duplex := Some(true)))
    ensures Dispatch([(KeyDuplex, "yes")], parseDate) == Success(Unset.(duplex := Some(false)))
    ensures Dispatch([(KeyDuplex, "false")], parseDate) == Success(Unset.(duplex := Some(false)))
  {
    DuplexCoercion("TRUE", parseDate);
    DuplexCoercion("True", parseDate);
    DuplexCoercion("yes", parseDate);
    DuplexCoercion("false", parseDate);
    assert JavaLang.ToLower('f') != 't';
  }

  /** A limit value is stored as `Integer.parseInt` reads it: every `int`, in
      its `Integer.toString` form, is accepted as-is, negative ones included. */
  lemma LimitRoundTrip(n: int, parseDate: DateParser)
    requires JavaLang.InIntRange(n)
    ensures Dispatch([(KeyRowsLimit, JavaLang.IntToString(n))], parseDate) == Success(Unset.(rowsLimit := Some(n)))
    ensures Dispatch([(KeyColsLimit, JavaLang.IntToString(n))], parseDate) == Success(Unset.(colsLimit := Some(n)))
  {
    var v := JavaLang.IntToString(n);
    JavaLang.ParseIntFormatRoundTrip(n);
    SingleAccepted(RowsLimit, v, parseDate, Unset.(rowsLimit := Some(n)));
    SingleAccepted(ColsLimit, v, parseDate, Unset.(colsLimit := Some(n)));
  }

  /** A limit value `Integer.parseInt` rejects aborts the call. */
  lemma LimitErrorPropagates(key: string, v: string, parseDate: DateParser)
    requires key == KeyRowsLimit || key == KeyColsLimit
    requires JavaLang.ParseInt(v).None?
    ensures Dispatch([(key, v)], parseDate) == Failure(InvalidNumber(key, v))
  {
  }

  /** No range check is made on the limits: "-5" and "0" are accepted, while
      text that is not a decimal `int` is an error. */
  lemma LimitExamples(parseDate: DateParser)
    ensures Dispatch([(KeyRowsLimit, "-5")], parseDate) == Success(Unset.(rowsLimit := Some(-5)))
    ensures Dispatch([(KeyColsLimit, "0")], parseDate) == Success(Unset.(colsLimit := Some(0)))
    ensures Dispatch([(KeyRowsLimit, "")], parseDate) == Failure(InvalidNumber(KeyRowsLimit, ""))
    ensures Dispatch([(KeyRowsLimit, "-")], parseDate) == Failure(InvalidNumber(KeyRowsLimit, "-"))
    ensures Dispatch([(KeyColsLimit, "12a")], parseDate) == Failure(InvalidNumber(KeyColsLimit, "12a"))
  {
    assert JavaLang.IntToString(-5) == "-5";
    LimitRoundTrip(-5, parseDate);
    assert JavaLang.IntToString(0) == "0";
    LimitRoundTrip(0, parseDate);
    LimitErrorPropagates(KeyRowsLimit, "", parseDate);
    LimitErrorPropagates(KeyRowsLimit, "-", parseDate);
    assert !JavaLang.IsDigit("12a"[2]);
    LimitErrorPropagates(KeyColsLimit, "12a", parseDate);
  }

  /** Each text key writes its own field verbatim, `mode` going to the converter id. */
  lemma TextKeysStoredVerbatim(v: string, parseDate: DateParser)
    ensures Dispatch([(KeyTitle, v)], parseDate) == Success(Unset.(title := Some(v)))
    ensures Dispatch([(KeyAuthor, v)], parseDate) == Success(Unset.(author := Some(v)))
    ensures Dispatch([(KeyIdentifier, v)], parseDate) == Success(Unset.(identifier := Some(v)))
    ensures Dispatch([(KeyMode, v)], parseDate) == Success(Unset.(converterId := Some(v)))
    ensures Dispatch([(KeyLanguage, v)], parseDate) == Success(Unset.(language := Some(v)))
  {
    SingleAccepted(Title, v, parseDate, Unset.(title := Some(v)));
    SingleAccepted(Author, v, parseDate, Unset.(author := Some(v)));
    SingleAccepted(Identifier, v, parseDate, Unset.(identifier := Some(v)));
    SingleAccepted(Mode, v, parseDate, Unset.(converterId := Some(v)));
    SingleAccepted(Language, v, parseDate, Unset.(language := Some(v)));
  }

  /** Two sequences with the same multiset of entries have the same entries. */
  lemma SameEntries(s: seq<(string, string)>, t: seq<(string, string)>)
    requires multiset(s) == multiset(t)
    ensures forall i :: 0 <= i < |s| ==> exists j :: 0 <= j < |t| && t[j] == s[i]
  {
    forall i | 0 <= i < |s|
      ensures exists j :: 0 <= j < |t| && t[j] == s[i]
    {
      assert s[i] in multiset(s);
      assert s[i] in multiset(t);
      assert s[i] in t;
      var j :| 0 <= j < |t| && t[j] == s[i];
    }
  }

  /** A field written from an entry of one order is written with the same
      value from the other order, which holds the same entry. */
  lemma SameFieldPresent(s: seq<(string, string)>, t: seq<(string, string)>, parseDate: DateParser,
                         f: Field, i: int, j: int, cs: Config, ct: Config)
    requires DistinctKeys(s) && DistinctKeys(t)
    requires 0 <= i < |s| && 0 <= j < |t| && s[i] == t[j] && s[i].0 == KeyOf(f)
    requires Dispatch(s, parseDate) == Success(cs) && Dispatch(t, parseDate) == Success(ct)
    ensures Get(cs, f) == Get(ct, f)
  {
  }

  /** A field no entry of either order addresses stays unset in both. */
  lemma SameFieldAbsent(s: seq<(string, string)>, t: seq<(string, string)>, parseDate: DateParser,
                        f: Field, cs: Config, ct: Config)
    requires DistinctKeys(s) && DistinctKeys(t)
    requires forall i :: 0 <= i < |s| ==> s[i].0 != KeyOf(f)
    requires forall j :: 0 <= j < |t| ==> t[j].0 != KeyOf(f)
    requires Dispatch(s, parseDate) == Success(cs) && Dispatch(t, parseDate) == Success(ct)
    ensures Get(cs, f) == Get(ct, f)
  {
  }

  /** A successful dispatch from a permuted map agrees with the original on one field. */
  lemma SameField(s: seq<(string, string)>, t: seq<(string, string)>, parseDate: DateParser, f: Field, cs: Config, ct: Config)
    requires DistinctKeys(s) && DistinctKeys(t) && multiset(s) == multiset(t)
    requires Dispatch(s, parseDate) == Success(cs) && Dispatch(t, parseDate) == Success(ct)
    ensures Get(cs, f) == Get(ct, f)
  {
    SameEntries(s, t);
    SameEntries(t, s);
    if i :| 0 <= i < |s| && s[i].0 == KeyOf(f) {
      var j :| 0 <= j < |t| && t[j] == s[i];
      SameFieldPresent(s, t, parseDate, f, i, j, cs, ct);
    } else if j :| 0 <= j < |t| && t[j].0 == KeyOf(f) {
      assert false;
    } else {
      SameFieldAbsent(s, t, parseDate, f, cs, ct);
    }
  }

  /** Two orders of the same entries hold a rejected entry alike. */
  lemma SameRejection(s: seq<(string, string)>, t: seq<(string, string)>, parseDate: DateParser)
    requires multiset(s) == multiset(t)
    ensures (exists i :: 0 <= i < |s| && Rejects(s[i], parseDate))
        <==> (exists j :: 0 <= j < |t| && Rejects(t[j], parseDate))
  {
    SameEntries(s, t);
    SameEntries(t, s);
  }

  /** The result does not depend on the map's iteration order: two orders of
      the same entries both fail or both succeed, and when they succeed they
      build the same configuration. (Which error is reported may differ: it
      is the first rejected entry of each order.) */
  lemma OrderIndependent(s: seq<(string, string)>, t: seq<(string, string)>, parseDate: DateParser)
    requires DistinctKeys(s) && DistinctKeys(t)
    requires multiset(s) == multiset(t)
    ensures Dispatch(s, parseDate).Success? == Dispatch(t, parseDate).Success?
    ensures Dispatch(s, parseDate).Success? ==> Dispatch(s, parseDate) == Dispatch(t, parseDate)
  {
    SameRejection(s, t, parseDate);
    var rs := Dispatch(s, parseDate);
    var rt := Dispatch(t, parseDate);
    if rs.Success? && rt.Success? {
      forall f: Field
        ensures Get(rs.value, f) == Get(rt.value, f)
      {
        SameField(s, t, parseDate, f, rs.value, rt.value);
      }
      ConfigExtensional(rs.value, rt.value);
    }
  }

  // ---------------------------------------------------------------------------
  // Settings written back from a configuration
  // ---------------------------------------------------------------------------

  /** Every field, in the order the key constants are declared. */
  const AllFields: seq<Field> := [Title, Author, Identifier, Mode, Language, Duplex, Date, RowsLimit, ColsLimit]

  /** The setting value that writes `v` back: text verbatim, a flag as
      "true" or "false", a date through `formatDate`, a number through
      `Integer.toString`. */
  function Render(v: Value, formatDate: Timestamp -> string): string {
    match v
    case Text(t) => t
    case Flag(b) => if b then "true" else "false"
    case When(t) => formatDate(t)
    case Number(n) => JavaLang.IntToString(n)
  }

  /** The setting that writes field `f` of `c` back, if `c` has written it. */
  function EntryFor(c: Config, f: Field, formatDate: Timestamp -> string): seq<(string, string)> {
    if Get(c, f).Some? then [(KeyOf(f), Render(Get(c, f).value, formatDate))] else []
  }

  /** One setting per field of `fs` that `c` has written, in the order of
      `fs`; every key names a field of `fs`. */
  function Entries(c: Config, fs: seq<Field>, formatDate: Timestamp -> string): (s: seq<(string, string)>)
    ensures forall i :: 0 <= i < |s| ==> FieldOf(s[i].0).Some? && FieldOf(s[i].0).value in fs
    decreases |fs|
  {
    if |fs| == 0 then []
    else
      var p := fs[..|fs| - 1];
      var f := fs[|fs| - 1];
      KeyTableBijective(f, KeyOf(f));
      assert forall g :: g in p ==> g in fs;
      Entries(c, p, formatDate) + EntryFor(c, f, formatDate)
  }

  /** Settings whose dispatch rebuilds `c`: one entry per written field. */
  function ToSettings(c: Config, formatDate: Timestamp -> string): seq<(string, string)> {
    Entries(c, AllFields, formatDate)
  }

  /** Entries drawn from distinct fields have distinct keys. */
  lemma {:induction false} EntriesDistinct(c: Config, fs: seq<Field>, formatDate: Timestamp -> string)
    requires forall i, j :: 0 <= i < j < |fs| ==> fs[i] != fs[j]
    ensures DistinctKeys(Entries(c, fs, formatDate))
    decreases |fs|
  {
    if |fs| > 0 {
      var p := fs[..|fs| - 1];
      var f := fs[|fs| - 1];
      EntriesDistinct(c, p, formatDate);
      assert f !in p;
      KeyTableBijective(f, KeyOf(f));
    }
  }

  /** A written value, rendered and coerced again, is the value itself,
      provided the date formatter is read back by the parser and the limits
      are Java `int`s. */
  lemma CoerceRender(c: Config, f: Field, parseDate: DateParser, formatDate: Timestamp -> string)
    requires Get(c, f).Some?
    requires c.date.Some? ==> parseDate(formatDate(c.date.value)) == c.date
    requires c.rowsLimit.Some? ==> JavaLang.InIntRange(c.rowsLimit.value)
    requires c.colsLimit.Some? ==> JavaLang.InIntRange(c.colsLimit.value)
    ensures Coerce(f, Render(Get(c, f).value, formatDate), parseDate) == Get(c, f)
  {
    match f
    case RowsLimit => JavaLang.ParseIntFormatRoundTrip(c.rowsLimit.value);
    case ColsLimit => JavaLang.ParseIntFormatRoundTrip(c.colsLimit.value);
    case Duplex =>
      assert JavaLang.ToLower('f') != 't';
    case _ =>
  }

  /** Running the loop over the entries of `fs` from a fresh builder restores
      exactly the fields of `fs` that `c` has written. */
  lemma {:induction false} EntriesRestore(c: Config, fs: seq<Field>, parseDate: DateParser, formatDate: Timestamp -> string)
    requires c.date.Some? ==> parseDate(formatDate(c.date.value)) == c.date
    requires c.rowsLimit.Some? ==> JavaLang.InIntRange(c.rowsLimit.value)
    requires c.colsLimit.Some? ==> JavaLang.InIntRange(c.colsLimit.value)
    ensures ApplyAll(Unset, Entries(c, fs, formatDate), parseDate).Success?
    ensures forall g: Field :: Get(ApplyAll(Unset, Entries(c, fs, formatDate), parseDate).value, g)
                               == (if g in fs then Get(c, g) else None)
    decreases |fs|
  {
    if |fs| > 0 {
      var p := fs[..|fs| - 1];
      var f := fs[|fs| - 1];
      EntriesRestore(c, p, parseDate, formatDate);
      var prefix := Entries(c, p, formatDate);
      var rp := ApplyAll(Unset, prefix, parseDate).value;
      assert forall g :: g in fs <==> g in p || g == f;
      if Get(c, f).Some? {
        var e := (KeyOf(f), Render(Get(c, f).value, formatDate));
        var s := prefix + [e];
        assert s == Entries(c, fs, formatDate);
        assert s[..|s| - 1] == prefix;
        KeyTableBijective(f, KeyOf(f));
        CoerceRender(c, f, parseDate, formatDate);
        assert ApplyAll(Unset, s, parseDate) == Apply(rp, e.0, e.1, parseDate);
      } else {
        assert prefix + [] == prefix;
      }
    }
  }

  /** Settings written back from a configuration rebuild it: every written
      field comes back with the same value and every other field stays
      unset. Booleans are written as "true"/"false", limits in
      `Integer.toString` form, and dates through a formatter the date parser
      reads back. */
  lemma SettingsRoundTrip(c: Config, parseDate: DateParser, formatDate: Timestamp -> string)
    requires c.date.Some? ==> parseDate(formatDate(c.date.value)) == c.date
    requires c.rowsLimit.Some? ==> JavaLang.InIntRange(c.rowsLimit.value)
    requires c.colsLimit.Some? ==> JavaLang.InIntRange(c.colsLimit.value)
    ensures DistinctKeys(ToSettings(c, formatDate))
    ensures Dispatch(ToSettings(c, formatDate), parseDate) == Success(c)
  {
    var s := ToSettings(c, formatDate);
    EntriesDistinct(c, AllFields, formatDate);
    EntriesRestore(c, AllFields, parseDate, formatDate);
    AllFieldsComplete();
    var r := ApplyAll(Unset, s, parseDate);
    ConfigExtensional(r.value, c);
    DispatchRunsLoop(s, parseDate);
  }

  /** `AllFields` lists every field. */
  lemma AllFieldsComplete()
    ensures forall g: Field :: g in AllFields
  {
    forall g: Field
      ensures g in AllFields
    {
      match g
      case Title => assert AllFields[0] == g;
      case Author => assert AllFields[1] == g;
      case Identifier => assert AllFields[2] == g;
      case Mode => assert AllFields[3] == g;
      case Language => assert AllFields[4] == g;
      case Duplex => assert AllFields[5] == g;
      case Date => assert AllFields[6] == g;
      case RowsLimit => assert AllFields[7] == g;
      case ColsLimit => assert AllFields[8] == g;
    }
  }

  /** `Dispatch` is the loop started from a fresh builder. */
  lemma DispatchRunsLoop(s: seq<(string, string)>, parseDate: DateParser)
    requires DistinctKeys(s)
    ensures Dispatch(s, parseDate) == ApplyAll(Unset, s, parseDate)
  {
  }
}
