# PEF tools: settings dispatch and validator provider, in Dafny

This project models two small, pure parts of the braille PEF (Portable
Embosser Format) tools and proves properties of them.

**Text converter settings.** `TextConverterFacade.parseTextFile` takes a
`Map<String,String>` of settings and folds it over a `TextHandler.Builder`.
Nine exact, case-sensitive keys are recognised: `title`, `author`,
`identifier`, `mode` (which becomes the builder's converter id), `language`,
`duplex`, `date`, `rows-limit` and `cols-limit`. `duplex` is true when the
value equals `"true"` ignoring case. `date` goes through a `yyyy-MM-dd`
date parser, and a parse failure becomes an `IllegalArgumentException`. The
two limits go through `Integer.parseInt`. Any other key throws
`IllegalArgumentException("Unknown option ...")`. The loop stops at the
first exception, so the builder is never built and the text is never parsed.

In the model (`text_converter_facade.dfy`, module `TextConverterFacade`):

- the map is a sequence of key/value pairs in the map's iteration order, with
  distinct keys;
- the builder is a `Config` record with one `Option` per field, where `None`
  means "not written";
- the exceptions are an `Error` datatype: `UnknownOption`, `InvalidDate` and
  `InvalidNumber`;
- `Apply` is one turn of the `switch`, `ApplyAll` is the loop, and
  `Dispatch` is the loop started from a fresh builder;
- the date parser is a parameter `parseDate: string -> Option<Timestamp>`,
  so every property holds for any parser.

The two Java library services the loop uses are modelled in
`java_lang.dfy` (module `JavaLang`):

- `String.equalsIgnoreCase`, following `regionMatches`;
- `Integer.parseInt`, both as a grammar (`ParseInt`) and as the JDK's
  negative-accumulation loop (`ParseIntAccumulating`), proved equal;
- `Integer.toString`, which `ParseInt` is proved to invert.

Properties relating several calls are in `text_converter_properties.dfy`.
That file also writes a configuration back as settings (`ToSettings`):
booleans as `true`/`false`, limits in `Integer.toString` form, and dates
through a formatter that the date parser reads back. It proves that
dispatching those settings rebuilds the configuration.

**Validator provider.** `DefaultValidatorProvider` builds a fixed list of two
descriptors for PEF. The first has the MIME id `application/x-pef+xml`. The
second has the legacy id, which is the canonical class name of
`PEFValidator`. `newValidator` returns a validator bound to either id and
`null` for anything else. In `default_validator_provider.dfy`:

- `List` returns the descriptor list that `NewProvider` fixes. `List` is a
  pure function, so `list()` is idempotent by construction.
- A `Validator` carries only its identifier.
- `null` is `None`.

Where descriptions of this facade differ from its code, the model follows the
code:

- `mode` is passed through unchecked; it is not resolved against the table
  catalog here.
- Negative and zero limits are accepted as-is.
- Whether an impossible calendar date such as `2024-02-30` is rejected is up
  to the date parser. `SimpleDateFormat` is lenient by default, so it rolls
  such a date over instead of rejecting it.

## Model

| member | source | states |
|---|---|---|
| TextConverterFacade.FieldOf | src/org/daisy/braille/utils/pef/TextConverterFacade.java:82-113 | a key selects a field exactly when it equals that field's key constant; every other key selects no field |
| TextConverterFacade.KeyTableBijective | src/org/daisy/braille/utils/pef/TextConverterFacade.java:25-58 | the nine key constants and the nine builder fields are in one-to-one correspondence |
| TextConverterFacade.KeysAreCaseSensitive | src/org/daisy/braille/utils/pef/TextConverterFacade.java:82-113 | `Title`, `DUPLEX`, `Rows-Limit` and `converterId` are unknown keys: matching is exact and case-sensitive |
| TextConverterFacade.Coerce | src/org/daisy/braille/utils/pef/TextConverterFacade.java:83-111 | the per-key coercion fails only for a date the parser rejects or a limit `Integer.parseInt` rejects; text is stored verbatim, `duplex` is true exactly for `true` in any mix of cases, a date is the parsed instant and a limit the parsed `int`, each of its setter's type |
| TextConverterFacade.Apply | src/org/daisy/braille/utils/pef/TextConverterFacade.java:81-114 | one loop iteration throws exactly when the entry's key is unknown or its value cannot be coerced, whatever the builder holds; otherwise it writes the coerced value into the key's own field and leaves every other field unchanged |
| TextConverterFacade.ApplyAll | src/org/daisy/braille/utils/pef/TextConverterFacade.java:80-116 | the loop fails exactly when some entry is rejected, with the error of the first rejected entry; otherwise each field holds the coercion of the last value written to it, or its earlier content |
| TextConverterFacade.Dispatch | src/org/daisy/braille/utils/pef/TextConverterFacade.java:78-116 | over a map's entries: fails exactly when some entry is rejected, reporting the first; on success exactly the fields whose keys occur are set, each to the coercion of its entry's value |
| TextConverterProperties.UnknownKeyFails | src/org/daisy/braille/utils/pef/TextConverterFacade.java:112-113 | a key outside the nine makes the whole call fail, and as the first rejected entry it is reported as `UnknownOption` with that key |
| TextConverterProperties.FailFast | src/org/daisy/braille/utils/pef/TextConverterFacade.java:80-116 | the reported error is the first rejected entry's, and the outcome equals that of the entries up to it alone: nothing later is looked at |
| TextConverterProperties.DateErrorPropagates | src/org/daisy/braille/utils/pef/TextConverterFacade.java:101-104 | a date the parser rejects means the call can never succeed; as the first rejected entry it is reported as `InvalidDate` with the value |
| TextConverterProperties.DateStored | src/org/daisy/braille/utils/pef/TextConverterFacade.java:101-105 | a date the parser accepts is stored as parsed, and nothing else is set |
| TextConverterProperties.DuplexCoercion | src/org/daisy/braille/utils/pef/TextConverterFacade.java:98-99 | `duplex` never fails and is set to true if and only if the value is `true` in some mix of cases |
| TextConverterProperties.DuplexExamples | src/org/daisy/braille/utils/pef/TextConverterFacade.java:98-99 | `TRUE` and `True` give true; `yes` and `false` give false, without error |
| TextConverterProperties.LimitRoundTrip | src/org/daisy/braille/utils/pef/TextConverterFacade.java:106-110 | every Java `int`, written in decimal, is stored unchanged as the rows or columns limit, negative values included |
| TextConverterProperties.LimitErrorPropagates | src/org/daisy/braille/utils/pef/TextConverterFacade.java:106-110 | a limit value that `Integer.parseInt` rejects fails the call with `InvalidNumber` naming the key and value |
| TextConverterProperties.LimitExamples | src/org/daisy/braille/utils/pef/TextConverterFacade.java:106-110 | `-5` and `0` are accepted as-is because there is no range check; the empty string, a lone `-` and `12a` are errors |
| TextConverterProperties.TextKeysStoredVerbatim | src/org/daisy/braille/utils/pef/TextConverterFacade.java:83-97 | `title`, `author`, `identifier`, `mode` and `language` store the value verbatim in their own field, with `mode` going to the converter id |
| TextConverterProperties.SettingsRoundTrip | src/org/daisy/braille/utils/pef/TextConverterFacade.java:79-116 | a configuration written back as settings has distinct keys, and dispatching them rebuilds exactly that configuration, given limits within `int` range and a date formatter the parser reads back |
| TextConverterProperties.OrderIndependent | src/org/daisy/braille/utils/pef/TextConverterFacade.java:79-116 | two iteration orders of the same entries both succeed or both fail, and when they succeed they build the same configuration |
| JavaLang.RegionMatchesIgnoreCase | src/org/daisy/braille/utils/pef/TextConverterFacade.java:99 | the per-character case-insensitive test holds from an index on exactly when the characters there have the same lower-case forms |
| JavaLang.EqualsIgnoreCase | src/org/daisy/braille/utils/pef/TextConverterFacade.java:99 | two strings are equal ignoring case exactly when they have the same length and the same lower-case form at every position |
| JavaLang.ParseInt | src/org/daisy/braille/utils/pef/TextConverterFacade.java:107-110 | an accepted string is an optional sign followed by at least one digit, with nothing else; its value is a Java `int`, and a negative one comes from a leading `-` |
| JavaLang.ParseIntSignedDigits | src/org/daisy/braille/utils/pef/TextConverterFacade.java:107-110 | an optional `+` or `-` followed by one or more digits is accepted exactly when its signed value is a Java `int`, and that value is returned; with `ParseInt`'s contract this is the whole grammar |
| JavaLang.ParseIntFormatRoundTrip | src/org/daisy/braille/utils/pef/TextConverterFacade.java:107-110 | parsing inverts `Integer.toString` on the whole `int` range |
| JavaLang.ParseIntRejectsOutOfRange | src/org/daisy/braille/utils/pef/TextConverterFacade.java:107-110 | a decimal number outside the `int` range is rejected |
| JavaLang.ParseIntAccumulating | src/org/daisy/braille/utils/pef/TextConverterFacade.java:107-110 | the JDK's negative-accumulation loop, with its overflow checks before each multiply and subtract, computes exactly `ParseInt` |
| JavaLang.ParseIntExamples | src/org/daisy/braille/utils/pef/TextConverterFacade.java:107-110 | `-5`, `+7` and `007` parse; the empty string, a lone `+` and surrounding blanks do not |
| DefaultValidatorProvider.NewProvider | src/org/daisy/braille/utils/pef/DefaultValidatorProvider.java:41-46 | the constructor lists exactly two descriptors: the MIME id, then the legacy id |
| DefaultValidatorProvider.List | src/org/daisy/braille/utils/pef/DefaultValidatorProvider.java:48-51 | `list()` returns the descriptors the constructor fixed: for the constructed provider, the MIME descriptor and then the legacy one |
| DefaultValidatorProvider.NewValidator | src/org/daisy/braille/utils/pef/DefaultValidatorProvider.java:53-62 | a validator is returned exactly for the MIME id and the legacy id, and it is bound to the identifier asked for; any other identifier gives `null` |
| DefaultValidatorProvider.IdentifiersDistinct | src/org/daisy/braille/utils/pef/DefaultValidatorProvider.java:15-17 | the MIME id and the legacy id differ |
| DefaultValidatorProvider.ListedIffResolvable | src/org/daisy/braille/utils/pef/DefaultValidatorProvider.java:41-62 | an identifier resolves to a validator exactly when a listed descriptor carries it, and the validator carries that identifier |
| DefaultValidatorProvider.EveryListedResolves | src/org/daisy/braille/utils/pef/DefaultValidatorProvider.java:48-62 | every identifier from `list()` resolves to a non-null validator with that same identifier |
| DefaultValidatorProvider.DescriptorsDifferOnlyByIdentifier | src/org/daisy/braille/utils/pef/DefaultValidatorProvider.java:19-37 | every descriptor shows "PEF Validator" and "Validates PEF 1.0 files"; two descriptors are equal exactly when their identifiers are, and the two listed ones differ |
| DefaultValidatorProvider.OtherIdentifiersNotFound | src/org/daisy/braille/utils/pef/DefaultValidatorProvider.java:59-60 | the MIME id in upper case, the simple class name and the empty string are not found |

## Left out

- `TextHandler.Builder.build()` and `parse()` (TextConverterFacade.java:117-118): they do the file I/O and the text-to-braille pagination, and `TextHandler` is not part of this model. A failed dispatch carries no configuration, which stands for "nothing is built or parsed".
- The input and output files and the table catalog passed to the builder. `mode` is only passed through here.
- The builder's default values: a field that no setting writes is `None`.
- The real `SimpleDateFormat("yyyy-MM-dd").parse`, which is lenient, accepts trailing text and depends on the time zone. It is a parameter of the model, and only how its failures propagate is proved.
- JavaLang.EqualsIgnoreCase: folds case for ASCII letters only. Java also folds non-ASCII letters.
- JavaLang.RegionMatchesIgnoreCase: compares characters with the same ASCII-only case mapping as `EqualsIgnoreCase`. Java's `regionMatches` also maps non-ASCII letters.
- JavaLang.ParseInt: accepts ASCII digits only. `Character.digit` also accepts other Unicode decimal digits, such as fullwidth or Arabic-Indic ones, so the model rejects some strings Java accepts.
- `null` keys and values. A `null` key makes the `switch` throw `NullPointerException`. A `null` value is stored as-is, makes `duplex` false, and makes the limits and the date throw. Model strings are never null.
- Java strings are sequences of UTF-16 code units, while model strings are sequences of Unicode scalar values. A key or value holding an unpaired surrogate therefore cannot be written in the model. A supplementary character counts as two units in Java's `length()` but as one character here. For every string the model can represent, the outcomes agree: no such character matches a letter of `"true"` ignoring case, and `Character.digit` rejects surrogates.
- The message text of each exception: the model's `Error` carries the offending key or value instead.
- The thread-unsafety of the shared static date format, the OSGi `@Component` registration, and the PEF validator's schema checking.
- The unmodifiable-collection wrapper around the descriptor list: the model's list is an immutable value.
