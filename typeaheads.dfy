/** The local data shaping of keeper/static/keeper/inherit/scripts/typeaheads.js:
    the options shared by every typeahead, the `transform` functions that
    turn API answers into suggestion records, the default suggestions
    shown for an empty query, and the day-long session cache of the
    database list. Searching, indexing and the API requests belong to
    external libraries and are inputs here. */
module Typeaheads {
  import opened Wrappers
  import opened Text
  import IoOptions

  // ----- common options -----

  datatype ClassNames = ClassNames(highlight: string, dataset: string, menu: string, cursor: string)

  datatype TypeaheadOptions = TypeaheadOptions(highlight: bool, minLength: int, classNames: ClassNames)

  /** `buildtypeaheadOptions(count)`: `count || 0` characters before
      suggestions appear, everything else fixed. A missing count is
      `None`. */
  function BuildTypeaheadOptions(count: Option<int>): TypeaheadOptions
  {
    TypeaheadOptions(
      true,
      if count.Some? then count.value else 0,
      ClassNames("font-weight-bold", "tt-dataset list-group", "tt-menu small text-dark scrollable", "tt-cursor"))
  }

  /** Two calls give the same options exactly when their counts agree,
      a missing count counting as zero; highlighting is always on. */
  lemma OptionsDependOnlyOnCount(a: Option<int>, b: Option<int>)
    ensures BuildTypeaheadOptions(a).highlight
    ensures BuildTypeaheadOptions(a).classNames == BuildTypeaheadOptions(b).classNames
    ensures BuildTypeaheadOptions(a) == BuildTypeaheadOptions(b) <==>
      a == b || (a == None && b == Some(0)) || (a == Some(0) && b == None)
  {
  }

  // ----- comma-separated lists -----

  /** Drops one leading space. */
  function DropSpace(p: string): string
  {
    if |p| > 0 && p[0] == ' ' then p[1..] else p
  }

  /** Reads back a list written with `join(", ")`: split at commas, and
      each piece after the first loses the space that followed its comma. */
  function ListItems(s: string): (r: seq<string>)
    ensures |r| >= 1
  {
    var pieces := Split(s, ',');
    [pieces[0]] + DropSpaces(pieces[1..])
  }

  function DropSpaces(pieces: seq<string>): (r: seq<string>)
    ensures |r| == |pieces|
  {
    seq(|pieces|, i requires 0 <= i < |pieces| => DropSpace(pieces[i]))
  }

  /** Each item with a space in front. */
  function Spaced(items: seq<string>): (r: seq<string>)
    ensures |r| == |items|
  {
    seq(|items|, i requires 0 <= i < |items| => " " + items[i])
  }

  /** A leading character other than the separator joins the first piece. */
  lemma SplitAfterChar(ch: char, j: string, c: char)
    requires ch != c
    ensures Split([ch] + j, c) == [[ch] + Split(j, c)[0]] + Split(j, c)[1..]
  {
    assert ([ch] + j)[1..] == j;
  }

  /** The pieces of a ", "-joined list split at commas. */
  lemma {:induction false} SplitCommaJoin(parts: seq<string>)
    requires |parts| >= 1 && forall i :: 0 <= i < |parts| ==> ',' !in parts[i]
    ensures Split(Join(parts, ", "), ',') == [parts[0]] + Spaced(parts[1..])
  {
    if |parts| == 1 {
      SplitNoSeparator(parts[0], ',');
    } else {
      var rest := parts[1..];
      var j := Join(rest, ", ");
      SplitCommaJoin(rest);
      JoinConcat([parts[0]], rest, ", ");
      assert [parts[0]] + rest == parts;
      assert Join(parts, ", ") == parts[0] + [','] + (" " + j);
      SplitAfterPiece(parts[0], ',', " " + j);
      SplitAfterChar(' ', j, ',');
      assert Spaced(rest) == [" " + rest[0]] + Spaced(rest[1..]);
    }
  }

  /** Joining with ", " and reading back gives the list again, provided
      no item holds a comma. */
  lemma ListItemsOfJoin(parts: seq<string>)
    requires |parts| >= 1 && forall i :: 0 <= i < |parts| ==> ',' !in parts[i]
    ensures ListItems(Join(parts, ", ")) == parts
  {
    SplitCommaJoin(parts);
    DropSpacesSpaced(parts[1..]);
    assert [parts[0]] + parts[1..] == parts;
  }

  lemma DropSpacesSpaced(items: seq<string>)
    ensures DropSpaces(Spaced(items)) == items
  {
    forall i | 0 <= i < |items|
      ensures DropSpaces(Spaced(items))[i] == items[i]
    {
      assert (" " + items[i])[1..] == items[i];
    }
  }

  // ----- FAQ suggestions -----

  datatype FaqResult = FaqResult(id: int, question: string, topics: seq<string>, url: string)

  datatype FaqDatum = FaqDatum(id: int, question: string, topics: string, url: string)

  /** The FAQ `transform`: one suggestion per search result, its topics
      joined with ", ". */
  function FaqTransform(results: seq<FaqResult>): (r: seq<FaqDatum>)
    ensures |r| == |results|
  {
    seq(|results|, i requires 0 <= i < |results| =>
      FaqDatum(results[i].id, results[i].question, Join(results[i].topics, ", "), results[i].url))
  }

  /** Each suggestion keeps its result's id, question and url, and its
      topic text reads back as the result's topics. */
  lemma FaqTransformMeaning(results: seq<FaqResult>, i: nat)
    requires i < |results|
    requires |results[i].topics| >= 1 && forall k :: 0 <= k < |results[i].topics| ==> ',' !in results[i].topics[k]
    ensures var d := FaqTransform(results)[i];
      d.id == results[i].id && d.question == results[i].question && d.url == results[i].url
      && ListItems(d.topics) == results[i].topics
  {
    ListItemsOfJoin(results[i].topics);
  }

  // ----- subject suggestions -----

  /** A record with an id and a name (a subject, or a guide's subject). */
  datatype Named = Named(id: int, name: string)

  /** The subject list's `transform`: only the id and the name are kept. */
  function SubjectTransform(response: seq<Named>): (r: seq<Named>)
    ensures |r| == |response|
  {
    seq(|response|, i requires 0 <= i < |response| => Named(response[i].id, response[i].name))
  }

  function Names(subjects: seq<Named>): (r: seq<string>)
    ensures |r| == |subjects|
  {
    seq(|subjects|, i requires 0 <= i < |subjects| => subjects[i].name)
  }

  /** `subjectSearchWithDefaults`: the empty query shows every indexed
      subject, any other query is handed to the search. */
  function SubjectSearch(q: string, indexed: seq<Named>, search: string -> seq<Named>): seq<Named>
  {
    if q == "" then indexed else search(q)
  }

  /** Focusing the empty subject box lists every subject the API sent,
      in order; typing hands the query to the search. */
  lemma SubjectDefaults(response: seq<Named>, q: string, search: string -> seq<Named>)
    ensures var r := SubjectSearch(q, SubjectTransform(response), search);
      (q == "" ==> |r| == |response| && forall i :: 0 <= i < |r| ==> r[i].id == response[i].id && r[i].name == response[i].name)
      && (q != "" ==> r == search(q))
  {
  }

  // ----- database suggestions -----

  /** A JavaScript value, as far as numeric conversion needs it. */
  datatype JsValue = JsNumber(n: real) | JsString(s: string) | JsBool(b: bool) | JsNull | JsUndefined

  /** Unary `+` on a string: white space trimmed, empty is 0, an
      optional sign and a plain decimal give its value, anything else is
      NaN (`None`). */
  function StringToNumber(s: string): Option<real>
  {
    var t := Trim(s);
    if t == "" then Some(0.0)
    else if t[0] == '+' then (if IoOptions.UnsignedSyntax(t[1..]) then Some(IoOptions.UnsignedValue(t[1..])) else None)
    else IoOptions.ParseNumber(t)
  }

  /** Unary `+`; `None` is NaN. */
  function ToNumber(v: JsValue): Option<real>
  {
    match v
    case JsNumber(n) => Some(n)
    case JsString(s) => StringToNumber(s)
    case JsBool(b) => Some(if b then 1.0 else 0.0)
    case JsNull => Some(0.0)
    case JsUndefined => None
  }

  /** `!!+v`: the value converts to a number other than 0 (NaN is false). */
  predicate NumericallyTrue(v: JsValue)
  {
    ToNumber(v).Some? && ToNumber(v).value != 0.0
  }

  /** The proxy flag as the API sends it, a digit in a string, switches
      the proxy on for "1" and off for "0" or nothing. */
  lemma ProxyFlagStrings()
    ensures NumericallyTrue(JsString("1")) && NumericallyTrue(JsNumber(1.0))
    ensures !NumericallyTrue(JsString("0")) && !NumericallyTrue(JsString("")) && !NumericallyTrue(JsUndefined)
  {
    assert Trim("1") == "1" by { TrimAround("", "1", ""); }
    assert Trim("0") == "0" by { TrimAround("", "0", ""); }
    assert IoOptions.UnsignedValue("1") == 1.0;
  }

  const ProxyPrefix: string := "https://libproxy.library.unt.edu/login?url="
  const RecentlyAdded: string := "recently added"
  const UnderConsideration: string := "under consideration"
  const SubjectsPrefix: string := "<br /><strong>Subjects: </strong>"

  datatype DbOption = DbOption(
    id: int, name: string, description: string, url: string,
    enableProxy: JsValue, enableNew: JsValue, enableTrial: JsValue,
    subjects: Option<seq<Named>>, altNames: string)

  datatype DbDatum = DbDatum(
    id: int, name: string, description: string, url: string,
    recent: string, trial: string, subjects: string, altNames: string)

  /** Where the closing '>' for a tag opening at `from - 1` lies: the
      first '>' at or after `from`, or the end. */
  function CloseIndex(s: string, from: nat): (k: nat)
    requires from <= |s|
    ensures from <= k <= |s|
    ensures forall j :: from <= j < k ==> s[j] != '>'
    ensures k < |s| ==> s[k] == '>'
    decreases |s| - from
  {
    if from == |s| || s[from] == '>' then from else CloseIndex(s, from + 1)
  }

  /** The length of the match of `/<\/?[^>]+>/` at the start of `s`, 0
      when there is none: a '<', at least one character other than '>',
      and the first '>' after them. */
  function TagAt(s: string): (n: nat)
    ensures n == 0 || (3 <= n <= |s| && s[0] == '<' && s[n - 1] == '>')
  {
    if |s| >= 2 && s[0] == '<' && s[1] != '>' && CloseIndex(s, 1) < |s| then CloseIndex(s, 1) + 1 else 0
  }

  /** `s.replace(/<\/?[^>]+>/gi, '')`: scanning left to right, every
      match is removed and the scan resumes after it. */
  function StripTags(s: string): (r: string)
    ensures |r| <= |s|
    ensures forall i :: 0 <= i < |r| ==> r[i] in s
    decreases |s|
  {
    if |s| == 0 then ""
    else if TagAt(s) > 0 then StripTags(s[TagAt(s)..])
    else [s[0]] + StripTags(s[1..])
  }

  /** No tag starts anywhere in `t`. */
  predicate NoTag(t: string)
  {
    forall i :: 0 <= i < |t| ==> TagAt(t[i..]) == 0
  }

  /** Stripping leaves no tag behind: a '<' it keeps is followed at once
      by '>', or by no '>' at all. */
  lemma {:induction false} StripTagsNoTag(s: string)
    ensures NoTag(StripTags(s))
    decreases |s|
  {
    if |s| > 0 {
      if TagAt(s) > 0 {
        StripTagsNoTag(s[TagAt(s)..]);
      } else {
        StripTagsNoTag(s[1..]);
        ConsNoTag(s[0], StripTags(s[1..]));
        if s[0] == '<' {
          KeptBracket(s);
        }
      }
    }
  }

  /** A character in front of tag-free text starts the only place a tag
      could begin. */
  lemma ConsNoTag(ch: char, rest: string)
    requires NoTag(rest)
    requires ch == '<' ==> TagAt([ch] + rest) == 0
    ensures NoTag([ch] + rest)
  {
    var t := [ch] + rest;
    forall i | 0 <= i < |t|
      ensures TagAt(t[i..]) == 0
    {
      if i == 0 {
        assert t[0..] == t;
      } else {
        assert t[i..] == rest[i - 1..];
      }
    }
  }

  /** A '<' that starts no tag starts none after stripping the rest. */
  lemma KeptBracket(s: string)
    requires |s| > 0 && s[0] == '<' && TagAt(s) == 0
    ensures TagAt([s[0]] + StripTags(s[1..])) == 0
  {
    var rest := StripTags(s[1..]);
    var t := [s[0]] + rest;
    if |t| >= 2 && t[1] != '>' {
      assert CloseIndex(s, 1) == |s|;
      forall j | 1 <= j < |t|
        ensures t[j] != '>'
      {
        assert rest[j - 1] in s[1..];
      }
      assert CloseIndex(t, 1) == |t|;
    }
  }

  /** Text without tags passes through unchanged. */
  lemma {:induction false} StripTagsIdentity(t: string)
    requires NoTag(t)
    ensures StripTags(t) == t
    decreases |t|
  {
    if |t| > 0 {
      assert TagAt(t[0..]) == 0;
      assert t[0..] == t;
      forall i | 0 <= i < |t| - 1
        ensures TagAt(t[1..][i..]) == 0
      {
        assert t[1..][i..] == t[i + 1..];
      }
      StripTagsIdentity(t[1..]);
    }
  }

  /** `.replace(/"/g, "'")`. */
  function ReplaceQuotes(s: string): (r: string)
    ensures |r| == |s| && '"' !in r
  {
    seq(|s|, i requires 0 <= i < |s| => if s[i] == '"' then '\'' else s[i])
  }

  /** Two texts with '<' and '>' at the same places. */
  predicate SameBrackets(a: string, b: string)
  {
    |a| == |b| && forall j :: 0 <= j < |a| ==> (a[j] == '<' <==> b[j] == '<') && (a[j] == '>' <==> b[j] == '>')
  }

  lemma {:induction false} CloseIndexSameBrackets(a: string, b: string, from: nat)
    requires SameBrackets(a, b) && from <= |a|
    ensures CloseIndex(a, from) == CloseIndex(b, from)
    decreases |a| - from
  {
    if from < |a| && a[from] != '>' {
      CloseIndexSameBrackets(a, b, from + 1);
    }
  }

  /** Replacing quotes creates no tag. */
  lemma ReplaceQuotesNoTag(t: string)
    requires NoTag(t)
    ensures NoTag(ReplaceQuotes(t))
  {
    var r := ReplaceQuotes(t);
    forall i | 0 <= i < |r|
      ensures TagAt(r[i..]) == 0
    {
      assert SameBrackets(t[i..], r[i..]);
      if |t[i..]| >= 2 {
        CloseIndexSameBrackets(t[i..], r[i..], 1);
      }
      assert TagAt(t[i..]) == 0;
    }
  }

  /** A database description as shown: markup removed, then double quotes
      turned into single ones. */
  function Description(d: string): string
  {
    ReplaceQuotes(StripTags(d))
  }

  /** The shown description has no tag and no double quote, and cleaning
      it again changes nothing. */
  lemma DescriptionClean(d: string)
    ensures NoTag(Description(d)) && '"' !in Description(d)
    ensures Description(Description(d)) == Description(d)
  {
    StripTagsNoTag(d);
    ReplaceQuotesNoTag(StripTags(d));
    StripTagsIdentity(Description(d));
    var r := Description(d);
    assert ReplaceQuotes(r) == r;
  }

  /** The subjects line: the prefix and the names joined with ", ", or
      nothing when there are no subjects. */
  function SubjectsText(subjects: Option<seq<Named>>): string
  {
    var names := if subjects.Some? then Names(subjects.value) else [];
    (if |names| > 0 then SubjectsPrefix else "") + Join(names, ", ")
  }

  /** The subjects line is empty exactly when there are no subjects;
      otherwise it is the prefix followed by text that reads back as the
      subject names. */
  lemma SubjectsTextMeaning(subjects: Option<seq<Named>>)
    ensures var names := if subjects.Some? then Names(subjects.value) else [];
      (SubjectsText(subjects) == "" <==> names == [])
      && (names != [] && (forall k :: 0 <= k < |names| ==> ',' !in names[k]) ==>
            StartsWith(SubjectsText(subjects), SubjectsPrefix)
            && ListItems(SubjectsText(subjects)[|SubjectsPrefix|..]) == names)
  {
    var names := if subjects.Some? then Names(subjects.value) else [];
    if names != [] {
      assert SubjectsText(subjects)[..|SubjectsPrefix|] == SubjectsPrefix;
      assert SubjectsText(subjects)[|SubjectsPrefix|..] == Join(names, ", ");
      if forall k :: 0 <= k < |names| ==> ',' !in names[k] {
        ListItemsOfJoin(names);
      }
    }
  }

  /** The database list's transform for one record. */
  function DbDatumOf(o: DbOption): DbDatum
  {
    DbDatum(
      o.id, o.name, Description(o.description),
      (if NumericallyTrue(o.enableProxy) then ProxyPrefix else "") + o.url,
      if o.enableNew == JsNumber(1.0) then RecentlyAdded else "",
      if o.enableTrial == JsNumber(1.0) then UnderConsideration else "",
      SubjectsText(o.subjects),
      o.altNames)
  }

  /** The database list's `$.map` over the API answer. */
  function DbTransform(options: seq<DbOption>): (r: seq<DbDatum>)
    ensures |r| == |options|
  {
    seq(|options|, i requires 0 <= i < |options| => DbDatumOf(options[i]))
  }

  /** What a database suggestion holds: id, name and alternative names
      kept; a clean description; the original url, behind the proxy
      exactly when the proxy flag is numerically true; the "recently
      added" and "under consideration" words exactly when the flags are
      the number 1 (a string "1" does not count). */
  lemma DbDatumMeaning(o: DbOption)
    ensures var d := DbDatumOf(o);
      d.id == o.id && d.name == o.name && d.altNames == o.altNames
      && NoTag(d.description) && '"' !in d.description
      && |o.url| <= |d.url| && d.url[|d.url| - |o.url|..] == o.url
      && (NumericallyTrue(o.enableProxy) <==> |d.url| == |ProxyPrefix| + |o.url| && d.url[..|ProxyPrefix|] == ProxyPrefix)
      && (d.recent != "" <==> o.enableNew == JsNumber(1.0)) && (d.recent != "" ==> d.recent == RecentlyAdded)
      && (d.trial != "" <==> o.enableTrial == JsNumber(1.0)) && (d.trial != "" ==> d.trial == UnderConsideration)
      && (d.subjects == "" <==> o.subjects.None? || o.subjects.value == [])
  {
    DescriptionClean(o.description);
    SubjectsTextMeaning(o.subjects);
    var d := DbDatumOf(o);
    if NumericallyTrue(o.enableProxy) {
      assert d.url[..|ProxyPrefix|] == ProxyPrefix;
    }
  }

  /** The ids of the databases suggested before anything is typed. */
  const BestBets: seq<int> := [2477452, 2478596, 2479459, 2477894, 2478101, 2478940]

  /** The search index's table by id: later records replace earlier ones
      with the same id. */
  function BuildIndex(data: seq<DbDatum>): (index: map<int, DbDatum>)
    ensures forall id :: id in index ==> index[id].id == id && index[id] in data
    ensures forall k :: 0 <= k < |data| ==> data[k].id in index
  {
    if |data| == 0 then map[]
    else
      var d := data[|data| - 1];
      BuildIndex(data[..|data| - 1])[d.id := d]
  }

  /** The index's `get(ids)`: the records for those ids, in the order
      asked, skipping ids it does not hold. */
  function IndexGet(index: map<int, DbDatum>, ids: seq<int>): (r: seq<DbDatum>)
    ensures |r| <= |ids|
  {
    if |ids| == 0 then []
    else (if ids[0] in index then [index[ids[0]]] else []) + IndexGet(index, ids[1..])
  }

  /** `databaseSearchWithDefaults`: the best bets for the empty query,
      the search's answer otherwise. */
  function DatabaseSearch(q: string, index: map<int, DbDatum>, search: string -> seq<DbDatum>): seq<DbDatum>
  {
    if q == "" then IndexGet(index, BestBets) else search(q)
  }

  /** The list holds a record with this id. */
  predicate Holds(data: seq<DbDatum>, id: int)
  {
    exists j :: 0 <= j < |data| && data[j].id == id
  }

  /** Looking ids up in an index built from a list gives list records
      with ids among those asked for. */
  lemma {:induction false} IndexGetFromData(data: seq<DbDatum>, ids: seq<int>)
    ensures forall d :: d in IndexGet(BuildIndex(data), ids) ==> d in data && d.id in ids
  {
    if |ids| > 0 {
      IndexGetFromData(data, ids[1..]);
      var index := BuildIndex(data);
      var r := IndexGet(index, ids);
      var tail := IndexGet(index, ids[1..]);
      var head := if ids[0] in index then [index[ids[0]]] else [];
      assert r == head + tail;
      forall d | d in r
        ensures d in data && d.id in ids
      {
        if d !in head {
          assert d in tail;
        }
      }
    }
  }

  /** When the list holds every id asked for, the lookup gives one record
      per id, in the order asked. */
  lemma {:induction false} IndexGetAll(data: seq<DbDatum>, ids: seq<int>)
    requires forall k :: 0 <= k < |ids| ==> Holds(data, ids[k])
    ensures var r := IndexGet(BuildIndex(data), ids);
      |r| == |ids| && forall k :: 0 <= k < |r| ==> r[k].id == ids[k]
  {
    if |ids| > 0 {
      assert forall k :: 0 <= k < |ids| - 1 ==> ids[1..][k] == ids[k + 1];
      IndexGetAll(data, ids[1..]);
      var index := BuildIndex(data);
      assert Holds(data, ids[0]);
      var j :| 0 <= j < |data| && data[j].id == ids[0];
      assert ids[0] in index;
      var tail := IndexGet(index, ids[1..]);
      assert IndexGet(index, ids) == [index[ids[0]]] + tail;
    }
  }

  /** The empty database query suggests only best bets, each from the
      stored list, in the fixed order; when the list holds all six, all
      six are suggested. Any other query is handed to the search. */
  lemma DatabaseDefaults(data: seq<DbDatum>, q: string, search: string -> seq<DbDatum>)
    ensures forall d :: d in DatabaseSearch("", BuildIndex(data), search) ==> d in data && d.id in BestBets
    ensures var r := DatabaseSearch("", BuildIndex(data), search);
      (forall k :: 0 <= k < |BestBets| ==> Holds(data, BestBets[k])) ==>
        |r| == 6 && forall k :: 0 <= k < 6 ==> r[k].id == BestBets[k]
    ensures q != "" ==> DatabaseSearch(q, BuildIndex(data), search) == search(q)
  {
    IndexGetFromData(data, BestBets);
    if forall k :: 0 <= k < |BestBets| ==> Holds(data, BestBets[k]) {
      IndexGetAll(data, BestBets);
    }
  }

  // ----- the session cache of the database list -----

  /** One day in milliseconds. */
  const DayMs: int := 86400000

  /** The cached list is missing, or the clock has passed its expiry. A
      missing expiry reads as 0. */
  predicate NeedsRefetch(stored: Option<seq<DbDatum>>, expires: Option<int>, now: int)
  {
    stored.None? || now > (if expires.Some? then expires.value else 0)
  }

  /** A list fetched at `now` is reused up to and including
      `now + 86400000` and fetched again after. */
  lemma FreshForOneDay(data: seq<DbDatum>, now: int, later: int)
    ensures NeedsRefetch(Some(data), Some(now + DayMs), later) <==> later > now + DayMs
  {
  }

  const Loading: string := "loading suggestions!"
  const TypeForSuggestions: string := "type for suggestions"

  /** The session storage entries of the database typeahead, the search
      index built from them, and the input's placeholder. */
  class AzCache {
    var stored: Option<seq<DbDatum>>
    var expires: Option<int>
    var index: map<int, DbDatum>
    var placeholder: string

    constructor (stored: Option<seq<DbDatum>>, expires: Option<int>, placeholder: string)
      ensures this.stored == stored && this.expires == expires && this.placeholder == placeholder && index == map[]
    {
      this.stored := stored;
      this.expires := expires;
      this.placeholder := placeholder;
      index := map[];
    }

    /** The page's start-up: a missing or stale list is fetched, and the
        answer `response`, once it arrives, is transformed and stored with
        an expiry one day ahead; then (`makeAZList`) the index is built
        from the stored list. A fresh list is indexed as it is. */
    method Load(now: int, response: seq<DbOption>)
      modifies this
      ensures NeedsRefetch(old(stored), old(expires), now) ==>
        stored == Some(DbTransform(response)) && expires == Some(now + DayMs) && placeholder == TypeForSuggestions
      ensures !NeedsRefetch(old(stored), old(expires), now) ==>
        stored == old(stored) && expires == old(expires) && placeholder == old(placeholder)
      ensures stored.Some? && index == BuildIndex(stored.value)
      ensures !NeedsRefetch(stored, expires, now)
    {
      if stored.None? || now > (if expires.Some? then expires.value else 0) {
        placeholder := Loading;
        var transformed := DbTransform(response);
        stored := Some(transformed);
        expires := Some(now + DayMs);
        index := BuildIndex(transformed);
        placeholder := TypeForSuggestions;
      } else {
        index := BuildIndex(stored.value);
      }
    }
  }

  // ----- guide and course suggestions -----

  datatype GuideOption = GuideOption(
    id: int, name: string, description: string, url: string, friendlyUrl: Option<string>,
    typeLabel: string, typeId: int, subjects: seq<Named>)

  datatype GuideDatum = GuideDatum(
    id: int, name: string, description: string, url: string,
    typeLabel: string, typeMachine: string, subjects: string)

  /** `type_label.toLowerCase().replace(" ", "-").concat("-", type_id)`. */
  function TypeMachine(typeLabel: string, typeId: int): string
  {
    ReplaceFirst(LowerAscii(typeLabel), ' ', '-') + "-" + IntToString(typeId)
  }

  /** `friendly_url || url`. */
  function GuideUrl(o: GuideOption): string
  {
    if o.friendlyUrl.Some? && o.friendlyUrl.value != "" then o.friendlyUrl.value else o.url
  }

  /** The guide list's `transform`. */
  function GuideTransform(options: seq<GuideOption>): (r: seq<GuideDatum>)
    ensures |r| == |options|
  {
    seq(|options|, i requires 0 <= i < |options| =>
      var o := options[i];
      GuideDatum(o.id, o.name, o.description, GuideUrl(o), o.typeLabel, TypeMachine(o.typeLabel, o.typeId), Join(Names(o.subjects), ", ")))
  }

  /** `coursesSource`: the query with the course-guide token appended. */
  function CoursesQuery(q: string): string
  {
    q + " course-guide-2"
  }

  /** `toLowerCase` distributes over concatenation. */
  lemma LowerAsciiConcat(a: string, b: string)
    ensures LowerAscii(a + b) == LowerAscii(a) + LowerAscii(b)
  {
  }

  /** The type token of a two-word label: both words lower-cased, joined
      by '-', then '-' and the type id. */
  lemma TypeMachineOfWords(w1: string, w2: string, typeId: int)
    requires ' ' !in w1
    ensures TypeMachine(w1 + " " + w2, typeId) == LowerAscii(w1) + "-" + LowerAscii(w2) + "-" + IntToString(typeId)
  {
    LowerAsciiConcat(w1 + " ", w2);
    LowerAsciiConcat(w1, " ");
    assert LowerAscii(" ") == " ";
    assert ' ' !in LowerAscii(w1);
    ReplaceFirstSpec(LowerAscii(w1 + " " + w2), ' ', '-', LowerAscii(w1), LowerAscii(w2));
  }

  /** A type label of at most two words gives a type token without
      spaces, so the whitespace tokenizer keeps it whole. */
  lemma TypeMachineOneToken(w1: string, w2: string, typeId: int)
    requires ' ' !in w1 && ' ' !in w2
    ensures ' ' !in TypeMachine(w1 + " " + w2, typeId)
    ensures ' ' !in TypeMachine(w1, typeId)
  {
    TypeMachineOfWords(w1, w2, typeId);
    assert ' ' !in LowerAscii(w1) && ' ' !in LowerAscii(w2);
    ReplaceFirstNoMatch(LowerAscii(w1), ' ', '-');
    var digits := IntToString(typeId);
    assert ' ' !in digits by {
      assert digits[0] == '-' || IsDigit(digits[0]);
    }
  }

  /** Without the pattern, `replace` changes nothing. */
  lemma {:induction false} ReplaceFirstNoMatch(s: string, a: char, b: char)
    requires a !in s
    ensures ReplaceFirst(s, a, b) == s
  {
    if |s| > 0 {
      ReplaceFirstNoMatch(s[1..], a, b);
    }
  }

  /** What a guide suggestion holds: id, name and label kept; the friendly
      url when there is one; a type token; and a subject text that reads
      back as the subject names. */
  lemma GuideTransformMeaning(options: seq<GuideOption>, i: nat)
    requires i < |options|
    ensures var d := GuideTransform(options)[i]; var o := options[i];
      d.id == o.id && d.name == o.name && d.typeLabel == o.typeLabel
      && (d.url == o.url || (o.friendlyUrl == Some(d.url) && d.url != ""))
      && (o.friendlyUrl.Some? && o.friendlyUrl.value != "" ==> d.url == o.friendlyUrl.value)
      && (|o.subjects| >= 1 && (forall k :: 0 <= k < |o.subjects| ==> ',' !in o.subjects[k].name) ==>
            ListItems(d.subjects) == Names(o.subjects))
  {
    var names := Names(options[i].subjects);
    if |names| >= 1 && forall k :: 0 <= k < |names| ==> ',' !in names[k] {
      ListItemsOfJoin(names);
    }
  }

  /** A guide labelled "Course Guide" with type id 2 has the type token
      "course-guide-2". */
  lemma CourseGuideType()
    ensures TypeMachine("Course Guide", 2) == "course-guide-2"
  {
    assert "Course Guide" == "Course" + " " + "Guide";
    TypeMachineOfWords("Course", "Guide", 2);
    var c := LowerAscii("Course");
    assert c[0] == 'c' && c[1] == 'o' && c[2] == 'u' && c[3] == 'r' && c[4] == 's' && c[5] == 'e';
    assert c == "course";
    var g := LowerAscii("Guide");
    assert g[0] == 'g' && g[1] == 'u' && g[2] == 'i' && g[3] == 'd' && g[4] == 'e';
    assert g == "guide";
    assert IntToString(2) == "2";
    assert c + "-" + g + "-" + "2" == "course-guide-2";
  }

  /** The token every course search adds is the type token of the
      course guides, as a separate word. */
  lemma CourseGuideToken(q: string)
    ensures CoursesQuery(q) == q + " " + TypeMachine("Course Guide", 2)
  {
    CourseGuideType();
    assert " course-guide-2" == " " + "course-guide-2";
  }
}
