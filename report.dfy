/**
 * ReportPropertiesFile: a diagnostic task that reports the keys and values of a
 * properties resource as "name: value" pairs joined by ", ", with an optional key
 * filter and per-key formats (an alternative name and a template for the value).
 */
module Report {
  import opened Wrappers
  import opened KeyOrder
  import opened Text

  /** The placeholder a value template mentions; the regex "\\{value}" matches it literally. */
  const Placeholder := "{value}"

  /** What separates two reported pairs. */
  const Separator := ", "

  /** What the passed message is before the report is built. */
  const Unknown := "?"

  /** The per-key format record; either field may be null. */
  datatype KeyFormat = KeyFormat(alternativeName: Option<string>, formatForValue: Option<string>)

  /**
   * What locating and loading the properties resource came to. Finding the resource
   * (class, class loader, file system) and parsing it are I/O, so they come in as this
   * value: no resource found, a failure while reading (with the exception's message,
   * which may be null), or the parsed keys and values.
   */
  datatype Lookup = NotFound | ReadFailed(cause: Option<string>) | Parsed(properties: map<string, string>)

  /** How String.format's %s renders a String reference: null prints as "null". */
  function FormatArg(s: Option<string>): string
  {
    if s.Some? then s.value else "null"
  }

  /** A name inside single quotes, as both error messages show the file name. */
  function Quoted(name: string): string
  {
    "'" + name + "'"
  }

  /** The message of a missing resource: it names the file in quotes and says "not found". */
  function NotFoundMessage(fileName: string): (r: string)
    ensures Contains(r, Quoted(fileName))
    ensures Contains(r, "not found")
  {
    var quoted := Quoted(fileName);
    var rest := " " + "not found" + " (tried both class-path and disk)";
    var m := "Properties file " + quoted + rest;
    OccursInMiddle("Properties file ", quoted, rest);
    OccursInMiddle("Properties file " + quoted + " ", "not found", " (tried both class-path and disk)");
    assert m == "Properties file " + quoted + " " + "not found" + " (tried both class-path and disk)";
    m
  }

  /** The message of a failed read: it names the file in quotes and carries the cause's text. */
  function ReadErrorMessage(fileName: string, cause: Option<string>): (r: string)
    ensures Contains(r, Quoted(fileName))
    ensures Contains(r, FormatArg(cause))
  {
    var quoted := Quoted(fileName);
    var m := "Error while reading properties file " + quoted + (": " + FormatArg(cause));
    OccursInMiddle("Error while reading properties file ", quoted, ": " + FormatArg(cause));
    OccursInMiddle("Error while reading properties file " + quoted + ": ", FormatArg(cause), "");
    assert m == "Error while reading properties file " + quoted + ": " + FormatArg(cause) + "";
    m
  }

  /**
   * readProperties: the parsed properties, or the error message of the exception it
   * throws. Every error message names the file in quotes; a missing resource says
   * "not found"; a failed read carries the cause's text.
   */
  function ReadProperties(fileName: string, lookup: Lookup): (r: Result<map<string, string>, string>)
    ensures r.Ok? <==> lookup.Parsed?
    ensures r.Ok? ==> r.value == lookup.properties
    ensures r.Err? ==> Contains(r.error, Quoted(fileName))
    ensures lookup.NotFound? ==> Contains(r.error, "not found")
    ensures lookup.ReadFailed? ==> Contains(r.error, FormatArg(lookup.cause))
  {
    match lookup
    case NotFound => Err(NotFoundMessage(fileName))
    case ReadFailed(cause) => Err(ReadErrorMessage(fileName, cause))
    case Parsed(properties) => Ok(properties)
  }

  lemma OccursInMiddle(a: string, b: string, c: string)
    ensures Contains(a + b + c, b)
  {
    assert (a + b + c)[|a|..|a| + |b|] == b;
    assert OccursAt(a + b + c, b, |a|);
  }

  /**
   * Java's replaceAll reads '$' and '\' in the replacement as group references and
   * escapes; a value without them is substituted literally.
   */
  predicate LiteralReplacement(value: string)
  {
    '$' !in value && '\\' !in value
  }

  /**
   * The key is in the properties, and its value, when its template mentions the
   * placeholder and so replaceAll reads the value, is substituted literally. A value
   * that no template substitutes may hold anything.
   */
  ghost predicate Substitutable(formats: map<string, KeyFormat>, properties: map<string, string>, key: string)
  {
    && key in properties
    && ((key in formats && formats[key].formatForValue.Some?
         && Contains(formats[key].formatForValue.value, Placeholder))
        ==> LiteralReplacement(properties[key]))
  }

  /** createKeyNameToReport: the entry's alternative name (even when null) or the key itself. */
  function KeyNameToReport(formats: map<string, KeyFormat>, key: string): Option<string>
  {
    if key in formats then formats[key].alternativeName else Some(key)
  }

  /** createValueToReport: the entry's template with the value substituted, or the raw value. */
  function ValueToReport(formats: map<string, KeyFormat>, properties: map<string, string>, key: string): string
    requires Substitutable(formats, properties, key)
  {
    var value := properties[key];
    if key in formats && formats[key].formatForValue.Some? then
      Replace(formats[key].formatForValue.value, Placeholder, value)
    else
      value
  }

  /** createKeyAndValueCombinationToReport: the name, then ": ", then the value. */
  function KeyAndValueToReport(name: Option<string>, value: string): (r: string)
    ensures |r| == |FormatArg(name)| + 2 + |value|
    ensures r[..|FormatArg(name)|] == FormatArg(name)
    ensures r[|FormatArg(name)|..|FormatArg(name)| + 2] == ": "
    ensures r[|FormatArg(name)| + 2..] == value
  {
    FormatArg(name) + ": " + value
  }

  /** The pair reported for one key. */
  function PairToReport(formats: map<string, KeyFormat>, properties: map<string, string>, key: string): string
    requires Substitutable(formats, properties, key)
  {
    KeyAndValueToReport(KeyNameToReport(formats, key), ValueToReport(formats, properties, key))
  }

  /** The pairs for the keys, one per key and in the keys' order. */
  function Pairs(formats: map<string, KeyFormat>, properties: map<string, string>, keys: seq<string>): (r: seq<string>)
    requires forall k :: k in keys ==> Substitutable(formats, properties, k)
    ensures |r| == |keys|
    ensures forall i :: 0 <= i < |keys| ==> r[i] == PairToReport(formats, properties, keys[i])
    decreases |keys|
  {
    if keys == [] then []
    else [PairToReport(formats, properties, keys[0])] + Pairs(formats, properties, keys[1..])
  }

  /** createReportMessage: the pairs joined by ", ". */
  function ReportMessage(formats: map<string, KeyFormat>, properties: map<string, string>, keys: seq<string>): string
    requires forall k :: k in keys ==> Substitutable(formats, properties, k)
  {
    Join(Pairs(formats, properties, keys), Separator)
  }

  /** The keys run reports: all of them, or those in a non-null, non-empty filter. */
  function SelectedKeys(available: set<string>, keysToShow: Option<set<string>>): (r: set<string>)
    ensures r <= available
    ensures keysToShow.Some? && keysToShow.value != {} ==> r <= keysToShow.value
  {
    if keysToShow.Some? && keysToShow.value != {} then available * keysToShow.value else available
  }

  /** Every key run selects can be rendered: the precondition of a successful report. */
  ghost predicate SelectionSubstitutable(formats: map<string, KeyFormat>, properties: map<string, string>,
                                         keysToShow: Option<set<string>>)
  {
    forall k :: k in SelectedKeys(properties.Keys, keysToShow) ==> Substitutable(formats, properties, k)
  }

  /** The message run passes on a successful load. */
  ghost function PassedReport(formats: map<string, KeyFormat>, keysToShow: Option<set<string>>,
                              properties: map<string, string>): string
    requires SelectionSubstitutable(formats, properties, keysToShow)
  {
    ReportMessage(formats, properties, SortedKeys(SelectedKeys(properties.Keys, keysToShow)))
  }

  /** The message for one more key: a separator and its pair at the end. */
  lemma ReportMessageAppend(formats: map<string, KeyFormat>, properties: map<string, string>,
                            keys: seq<string>, i: nat)
    requires i < |keys|
    requires forall k :: k in keys ==> Substitutable(formats, properties, k)
    ensures ReportMessage(formats, properties, keys[..i + 1]) ==
      (if i == 0 then "" else ReportMessage(formats, properties, keys[..i]) + Separator)
      + PairToReport(formats, properties, keys[i])
  {
    var before := Pairs(formats, properties, keys[..i]);
    var pair := PairToReport(formats, properties, keys[i]);
    PairsAppend(formats, properties, keys, i);
    JoinAppend(before, pair, Separator);
  }

  lemma PairsAppend(formats: map<string, KeyFormat>, properties: map<string, string>,
                    keys: seq<string>, i: nat)
    requires i < |keys|
    requires forall k :: k in keys ==> Substitutable(formats, properties, k)
    ensures Pairs(formats, properties, keys[..i + 1]) ==
      Pairs(formats, properties, keys[..i]) + [PairToReport(formats, properties, keys[i])]
  {
    assert keys[..i + 1] == keys[..i] + [keys[i]];
    PairsSnoc(formats, properties, keys[..i], keys[i]);
  }

  lemma {:induction false} PairsSnoc(formats: map<string, KeyFormat>, properties: map<string, string>,
                                     keys: seq<string>, key: string)
    requires forall k :: k in keys ==> Substitutable(formats, properties, k)
    requires Substitutable(formats, properties, key)
    ensures Pairs(formats, properties, keys + [key]) ==
      Pairs(formats, properties, keys) + [PairToReport(formats, properties, key)]
    decreases |keys|
  {
    if keys != [] {
      assert (keys + [key])[1..] == keys[1..] + [key];
      PairsSnoc(formats, properties, keys[1..], key);
    }
  }

  /** An added format decides the key's name, even a null name; other keys keep theirs. */
  lemma NameFromFormat(formats: map<string, KeyFormat>, key: string, name: Option<string>,
                       format: Option<string>, other: string)
    ensures KeyNameToReport(formats[key := KeyFormat(name, format)], key) == name
    ensures other != key ==>
      KeyNameToReport(formats[key := KeyFormat(name, format)], other) == KeyNameToReport(formats, other)
  {
  }

  /** Without a format entry the key is reported under its own name. */
  lemma NameWithoutFormat(formats: map<string, KeyFormat>, key: string)
    requires key !in formats
    ensures FormatArg(KeyNameToReport(formats, key)) == key
  {
  }

  /** A template without the placeholder is reported as it is, whatever the value. */
  lemma TemplateWithoutPlaceholder(formats: map<string, KeyFormat>, properties: map<string, string>, key: string)
    requires key in properties && key in formats
    requires formats[key].formatForValue.Some? && !Contains(formats[key].formatForValue.value, Placeholder)
    ensures ValueToReport(formats, properties, key) == formats[key].formatForValue.value
  {
    ReplaceWithoutMatch(formats[key].formatForValue.value, Placeholder, properties[key]);
  }

  /**
   * A template is cut at every placeholder and the cuts are rejoined with the value:
   * no placeholder the scan finds is left in place.
   */
  lemma TemplateSubstitutesEveryPlaceholder(formats: map<string, KeyFormat>, properties: map<string, string>,
                                            key: string)
    requires key in properties && key in formats && formats[key].formatForValue.Some?
    requires Substitutable(formats, properties, key)
    ensures ValueToReport(formats, properties, key) ==
      Join(Split(formats[key].formatForValue.value, Placeholder), properties[key])
  {
    ReplaceIsSplitJoin(formats[key].formatForValue.value, Placeholder, properties[key]);
  }

  /** With no entry, or an entry whose template is null, the raw value is reported. */
  lemma RawValueWithoutTemplate(formats: map<string, KeyFormat>, properties: map<string, string>, key: string)
    requires key in properties
    requires key in formats ==> formats[key].formatForValue.None?
    ensures ValueToReport(formats, properties, key) == properties[key]
  {
  }

  /**
   * The report lists the pairs of the selected keys in ascending order of the raw key;
   * the formats play no part in the order.
   */
  lemma ReportInKeyOrder(formats: map<string, KeyFormat>, keysToShow: Option<set<string>>,
                         properties: map<string, string>, keys: seq<string>)
    requires SelectionSubstitutable(formats, properties, keysToShow)
    requires StrictlySorted(keys) && Lists(keys, SelectedKeys(properties.Keys, keysToShow))
    ensures forall k :: k in keys ==> k in properties
    ensures SortedKeys(SelectedKeys(properties.Keys, keysToShow)) == keys
    ensures PassedReport(formats, keysToShow, properties) == ReportMessage(formats, properties, keys)
  {
    SortedKeysUnique(keys, SelectedKeys(properties.Keys, keysToShow));
  }

  /**
   * The message for n keys is their n pairs in order with exactly n - 1 separators,
   * none leading and none trailing; no keys give the empty message.
   */
  lemma ReportLayout(formats: map<string, KeyFormat>, properties: map<string, string>, keys: seq<string>)
    requires forall k :: k in keys ==> Substitutable(formats, properties, k)
    ensures keys == [] ==> ReportMessage(formats, properties, keys) == ""
    ensures ReportMessage(formats, properties, keys) ==
      Concat(Intersperse(Pairs(formats, properties, keys), Separator))
  {
    JoinIsInterspersed(Pairs(formats, properties, keys), Separator);
  }

  /** A properties file that loads passes no keys when empty: the message is "". */
  lemma EmptyPropertiesReportNothing(formats: map<string, KeyFormat>, keysToShow: Option<set<string>>)
    ensures PassedReport(formats, keysToShow, map[]) == ""
  {
    ReportInKeyOrder(formats, keysToShow, map[], []);
  }

  /** A bracketed placeholder becomes the bracketed value. */
  lemma ReplaceBracketed(p: string, v: string, rest: string)
    requires p == Placeholder
    ensures Replace(['['] + p + [']'] + rest, p, v) == ['['] + v + [']'] + Replace(rest, p, v)
  {
    var closing := [']'] + rest;
    assert ['['] + p + [']'] + rest == ['['] + (p + closing);
    ReplaceSkip('[', p + closing, p, v);
    ReplaceMatch(closing, p, v);
    ReplaceSkip(']', rest, p, v);
  }

  /** The template "[{value}]-[{value}]" with the value "7" gives "[7]-[7]". */
  lemma TemplateExample(template: string, value: string)
    requires template == "[{value}]-[{value}]" && value == "7"
    ensures ValueToReport(map["k" := KeyFormat(None, Some(template))], map["k" := value], "k") == "[7]-[7]"
  {
    var p := Placeholder;
    var b := ['['] + p + [']'];
    assert template == b + (['-'] + (b + []));
    ReplaceBracketed(p, value, ['-'] + (b + []));
    ReplaceSkip('-', b + [], p, value);
    ReplaceBracketed(p, value, []);
    ReplaceMatch([], p, value);
  }

  /** Two keys give their two pairs with one separator between them. */
  lemma TwoKeyMessage(formats: map<string, KeyFormat>, properties: map<string, string>,
                      first: string, second: string)
    requires Substitutable(formats, properties, first) && Substitutable(formats, properties, second)
    ensures ReportMessage(formats, properties, [first, second]) ==
      PairToReport(formats, properties, first) + Separator + PairToReport(formats, properties, second)
  {
    var pairs := Pairs(formats, properties, [first, second]);
    assert pairs == [pairs[0], pairs[1]];
    assert pairs[1..] == [pairs[1]];
    assert Join(pairs, Separator) == pairs[0] + Separator + Join([pairs[1]], Separator);
  }

  /** Two selected keys, the first below the second, give the report of those two. */
  lemma TwoKeyReport(formats: map<string, KeyFormat>, keysToShow: Option<set<string>>,
                     properties: map<string, string>, first: string, second: string)
    requires SelectionSubstitutable(formats, properties, keysToShow)
    requires Less(first, second)
    requires SelectedKeys(properties.Keys, keysToShow) == {first, second}
    ensures first in properties && second in properties
    ensures SortedKeys(SelectedKeys(properties.Keys, keysToShow)) == [first, second]
    ensures PassedReport(formats, keysToShow, properties) == ReportMessage(formats, properties, [first, second])
  {
    var keys := [first, second];
    assert Lists(keys, {first, second});
    ReportInKeyOrder(formats, keysToShow, properties, keys);
  }

  /** "v={value}" with the value "1" gives "v=1". */
  lemma PrefixedPlaceholder(prefix: string, template: string, value: string)
    requires prefix == "v=" && template == prefix + Placeholder
    ensures Replace(template, Placeholder, value) == prefix + value
  {
    var p := Placeholder;
    assert template == ['v'] + (['='] + (p + []));
    ReplaceSkip('v', ['='] + (p + []), p, value);
    ReplaceSkip('=', p + [], p, value);
    ReplaceMatch([], p, value);
  }

  /**
   * Keys a, b, c with values 1, 2, 3, the filter {a, c}, key a renamed "Alpha" with the
   * template "v={value}", no format for c: the report is "Alpha: v=1, c: 3".
   */
  lemma FilteredRenamedExample(formats: map<string, KeyFormat>, keysToShow: Option<set<string>>,
                                properties: map<string, string>)
    requires formats == map["a" := KeyFormat(Some("Alpha"), Some("v={value}"))]
    requires keysToShow == Some({"a", "c"})
    requires properties == map["a" := "1", "b" := "2", "c" := "3"]
    ensures SelectionSubstitutable(formats, properties, keysToShow)
    ensures PassedReport(formats, keysToShow, properties) == "Alpha: v=1, c: 3"
  {
    assert LiteralReplacement(properties["a"]) && "c" !in formats;
    assert SelectedKeys(properties.Keys, keysToShow) == {"a", "c"};
    PrefixedPlaceholder("v=", formats["a"].formatForValue.value, properties["a"]);
    assert PairToReport(formats, properties, "a") == "Alpha: v=1";
    assert PairToReport(formats, properties, "c") == "c: 3";
    assert Less("a", "c");
    TwoKeyReport(formats, keysToShow, properties, "a", "c");
    TwoKeyMessage(formats, properties, "a", "c");
    FilteredRenamedJoin(PairToReport(formats, properties, "a"), PairToReport(formats, properties, "c"));
  }

  lemma FilteredRenamedJoin(first: string, second: string)
    requires first == "Alpha: v=1" && second == "c: 3"
    ensures first + Separator + second == "Alpha: v=1, c: 3"
  {
  }

  /**
   * A value that is filtered out may hold '$': key a, with the value "$1" and the
   * template "{value}", is not selected by the filter {b}, so only "b: x" is reported.
   */
  lemma UnselectedValueUnconstrained(formats: map<string, KeyFormat>, keysToShow: Option<set<string>>,
                                     properties: map<string, string>)
    requires formats == map["a" := KeyFormat(None, Some(Placeholder))]
    requires keysToShow == Some({"b"})
    requires properties == map["a" := "$1", "b" := "x"]
    ensures !LiteralReplacement(properties["a"])
    ensures SelectionSubstitutable(formats, properties, keysToShow)
    ensures PassedReport(formats, keysToShow, properties) == "b: x"
  {
    assert '$' == properties["a"][0];
    assert SelectedKeys(properties.Keys, keysToShow) == {"b"};
    assert "b" !in formats;
    var keys := ["b"];
    assert Lists(keys, {"b"});
    ReportInKeyOrder(formats, keysToShow, properties, keys);
    assert Pairs(formats, properties, keys) == [PairToReport(formats, properties, "b")];
  }

  /** A missing resource fails the run with a message naming the file and saying "not found". */
  lemma MissingResourceFails(fileName: string)
    ensures ReadProperties(fileName, NotFound) == Err(NotFoundMessage(fileName))
    ensures Contains(NotFoundMessage(fileName), Quoted(fileName))
    ensures Contains(NotFoundMessage(fileName), "not found")
  {
  }

  /** The result object of the framework: run writes its two messages. */
  class TaskResult {
    var passedMessage: Option<string>
    var errorMessage: Option<string>

    constructor ()
      ensures passedMessage == None && errorMessage == None
    {
      passedMessage := None;
      errorMessage := None;
    }

    method SetPassedMessage(message: string)
      modifies this
      ensures passedMessage == Some(message) && errorMessage == old(errorMessage)
    {
      passedMessage := Some(message);
    }

    method SetErrorMessage(message: string)
      modifies this
      ensures errorMessage == Some(message) && passedMessage == old(passedMessage)
    {
      errorMessage := Some(message);
    }
  }

  /** The task's configuration (both fields may be null) and its run. */
  class ReportPropertiesFile {
    var keysToShow: Option<set<string>>
    var keyFormatters: Option<map<string, KeyFormat>>

    constructor ()
      ensures keysToShow == None && keyFormatters == None
    {
      keysToShow := None;
      keyFormatters := None;
    }

    /** The format entries; a null map has none. */
    function Formats(): map<string, KeyFormat>
      reads this
    {
      if keyFormatters.Some? then keyFormatters.value else map[]
    }

    /** setKeysToReport: the filter is replaced wholesale; the formats are untouched. */
    method SetKeysToReport(keys: Option<set<string>>)
      modifies this
      ensures keysToShow == keys
      ensures keyFormatters == old(keyFormatters)
    {
      keysToShow := keys;
    }

    /**
     * addFormatForKey: the map is created when null, then the key's entry is set to
     * the given pair, replacing any earlier one; every other key's entry and the
     * filter are unchanged.
     */
    method AddFormatForKey(key: string, alternativeNameForKey: Option<string>, formatForValue: Option<string>)
      modifies this
      ensures keyFormatters.Some?
      ensures key in Formats() && Formats()[key] == KeyFormat(alternativeNameForKey, formatForValue)
      ensures forall k :: k != key ==> (k in Formats() <==> k in old(Formats()))
      ensures forall k :: k != key && k in old(Formats()) ==> Formats()[k] == old(Formats())[k]
      ensures Formats() == old(Formats())[key := KeyFormat(alternativeNameForKey, formatForValue)]
      ensures keysToShow == old(keysToShow)
    {
      if keyFormatters.None? {
        keyFormatters := Some(map[]);
      }
      keyFormatters := Some(keyFormatters.value[key := KeyFormat(alternativeNameForKey, formatForValue)]);
    }

    /**
     * The key selection of run: every key goes into a TreeSet, which keeps them
     * ascending and without duplicates, and a non-null, non-empty filter then retains
     * only the keys it holds.
     */
    method CollectKeys(properties: map<string, string>) returns (keys: seq<string>)
      ensures StrictlySorted(keys)
      ensures forall x :: x in keys <==>
        x in properties && (keysToShow.Some? && keysToShow.value != {} ==> x in keysToShow.value)
      ensures keys == SortedKeys(SelectedKeys(properties.Keys, keysToShow))
    {
      keys := [];
      var remaining := properties.Keys;
      while remaining != {}
        invariant remaining <= properties.Keys
        invariant StrictlySorted(keys)
        invariant forall x :: x in keys <==> x in properties && x !in remaining
        decreases remaining
      {
        var key :| key in remaining;
        keys := Insert(keys, key);
        remaining := remaining - {key};
      }
      if keysToShow.Some? && keysToShow.value != {} {
        var filter := keysToShow.value;
        var kept: seq<string> := [];
        var i := 0;
        while i < |keys|
          invariant 0 <= i <= |keys|
          invariant StrictlySorted(kept)
          invariant forall x :: x in kept <==> x in keys[..i] && x in filter
        {
          if keys[i] in filter {
            forall x | x in kept
              ensures Less(x, keys[i])
            {
              var j :| 0 <= j < i && keys[..i][j] == x;
              assert keys[j] == x;
            }
            SnocSorted(kept, keys[i]);
          }
          assert keys[..i + 1] == keys[..i] + [keys[i]];
          if keys[i] in filter {
            kept := kept + [keys[i]];
          }
          i := i + 1;
        }
        assert keys[..i] == keys;
        keys := kept;
      }
      SortedKeysUnique(keys, SelectedKeys(properties.Keys, keysToShow));
    }

    /**
     * createReportMessage: walks the keys in order, appending each pair and, while
     * another key follows, the separator.
     */
    method CreateReportMessage(properties: map<string, string>, keys: seq<string>) returns (message: string)
      requires forall k :: k in keys ==> Substitutable(Formats(), properties, k)
      ensures message == ReportMessage(Formats(), properties, keys)
    {
      var formats := Formats();
      message := "";
      var i := 0;
      while i < |keys|
        invariant 0 <= i <= |keys|
        invariant message == ReportMessage(formats, properties, keys[..i]) + (if 0 < i < |keys| then Separator else "")
      {
        var key := keys[i];
        ReportMessageAppend(formats, properties, keys, i);
        message := message + KeyAndValueToReport(KeyNameToReport(formats, key), ValueToReport(formats, properties, key));
        i := i + 1;
        if i < |keys| {
          message := message + Separator;
        }
      }
      assert keys[..i] == keys;
    }

    /**
     * run: on a successful load the passed message is the report; on a failure the
     * error message is the failure's message and the passed message is still "?",
     * since it is set on every path.
     */
    method Run(fileName: string, lookup: Lookup, result: TaskResult)
      requires lookup.Parsed? ==> SelectionSubstitutable(Formats(), lookup.properties, keysToShow)
      modifies result
      ensures lookup.Parsed? ==>
        result.passedMessage == Some(PassedReport(Formats(), keysToShow, lookup.properties))
        && result.errorMessage == old(result.errorMessage)
      ensures !lookup.Parsed? ==>
        result.errorMessage == Some(ReadProperties(fileName, lookup).error)
        && result.passedMessage == Some(Unknown)
    {
      var message := Unknown;
      var loaded := ReadProperties(fileName, lookup);
      match loaded {
        case Ok(properties) =>
          var keys := CollectKeys(properties);
          message := CreateReportMessage(properties, keys);
        case Err(error) =>
          result.SetErrorMessage(error);
      }
      result.SetPassedMessage(message);
    }
  }
}
