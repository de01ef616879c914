/**
 * The Pokemon server: a name is looked up on PokeAPI, and the record that comes back is
 * formatted for the reader; a squad is built from ten fixed names. The HTTP exchange is a
 * parameter: `HttpOutcome` is what the client library reports for a request.
 */
module Pokemon {
  import opened Wrappers
  import opened Strings

  const PokeApiUrl := "https://pokeapi.co/api/v2/pokemon/"

  /** One element of the `stats` list: `stat.name` and `base_stat`. */
  datatype StatEntry = StatEntry(stat: string, baseStat: int)

  /** The fields of a PokeAPI record that the server reads, each absent or present. Lists
      of types and abilities hold the `type.name` and `ability.name` of each element. */
  datatype Record = Record(
    error: Option<string>,
    name: Option<string>,
    id: Option<int>,
    height: Option<int>,
    weight: Option<int>,
    stats: Option<seq<StatEntry>>,
    types: Option<seq<string>>,
    abilities: Option<seq<string>>)

  /** `{}` */
  const EmptyRecord := Record(None, None, None, None, None, None, None, None)

  /** `{"error": message}` */
  function ErrorRecord(message: string): Record {
    EmptyRecord.(error := Some(message))
  }

  /** The body of a response: JSON that decodes to a record, or text that does not decode. */
  datatype Body = Decoded(record: Record) | Undecodable(description: string)

  /** What `client.get` does: it answers with a status (and the URL as the client prints
      it), fails at the transport layer (`RequestError`), or raises something else. */
  datatype HttpOutcome =
    | Response(status: int, urlRepr: string, body: Body)
    | TransportFailure(urlRepr: string)
    | OtherFailure(description: string)

  // ---------------------------------------------------------------------------
  // fetch_pokemon_data
  // ---------------------------------------------------------------------------

  /** The name as it goes into the URL: lower-cased, then stripped. It holds no upper-case
      letter and neither starts nor ends with whitespace; a blank name gives the empty key. */
  function LookupKey(name: string): (key: string)
    ensures forall c :: c in key ==> !IsAsciiUpper(c)
    ensures key == [] || (!IsSpace(key[0]) && !IsSpace(key[|key| - 1]))
    ensures IsBlank(name) ==> key == []
  {
    var lowered := Lower(name);
    assert IsBlank(name) ==> lowered == name by {
      if IsBlank(name) { LowerBlank(name); }
    }
    assert forall c :: c in lowered ==> !IsAsciiUpper(c) by {
      forall c | c in lowered ensures !IsAsciiUpper(c) {
        var i :| 0 <= i < |lowered| && lowered[i] == c;
      }
    }
    Strip(lowered)
  }

  /** The URL looked up for a name: the base URL followed by the lookup key. */
  function RequestUrl(name: string): (url: string)
    ensures StartsWith(url, PokeApiUrl) && url[|PokeApiUrl|..] == LookupKey(name)
  {
    var url := PokeApiUrl + LookupKey(name);
    assert url[..|PokeApiUrl|] == PokeApiUrl;
    url
  }

  /** Names that differ in letter case or in surrounding whitespace are looked up at the
      same URL. */
  lemma RequestUrlIgnoresCaseAndPadding(a: string, b: string, pre: string, post: string)
    requires Lower(a) == Lower(b) && IsBlank(pre) && IsBlank(post)
    ensures RequestUrl(pre + a + post) == RequestUrl(b)
  {
    LowerAppend(pre + a, post);
    LowerAppend(pre, a);
    LowerBlank(pre);
    LowerBlank(post);
    StripAbsorbsPadding(pre, Lower(a), post);
  }

  /** The key is the name itself, lower-cased, once whitespace around it is dropped. */
  lemma LookupKeyOfPadded(pre: string, x: string, post: string)
    requires IsBlank(pre) && IsBlank(post)
    requires x != [] && !IsSpace(x[0]) && !IsSpace(x[|x| - 1])
    ensures LookupKey(pre + x + post) == Lower(x)
  {
    LowerAppend(pre + x, post);
    LowerAppend(pre, x);
    LowerBlank(pre);
    LowerBlank(post);
    StripAbsorbsPadding(pre, Lower(x), post);
    StripLower(x);
    StripLeftEmpty(x);
    StripRightEmpty(x);
    assert StripLeft(x) == x;
    assert StripRight(x) == x;
  }

  /** `raise_for_status()`: httpx raises for every status outside 2xx. */
  predicate IsSuccess(status: int) { 200 <= status < 300 }

  function RequestError(urlRepr: string): string { "Request Error: " + urlRepr + "." }

  function ResponseError(status: int, urlRepr: string): string {
    "Response Error: " + IntToString(status) + " while requesting " + urlRepr + "."
  }

  function ExceptionError(description: string): string { "Exception Error: " + description }

  /** `fetch_pokemon_data`, with the HTTP exchange given as `http`. */
  function FetchPokemonData(http: string -> HttpOutcome, name: string): (data: Record)
    ensures http(RequestUrl(name)).TransportFailure? ==>
              data == ErrorRecord(RequestError(http(RequestUrl(name)).urlRepr))
    ensures http(RequestUrl(name)).OtherFailure? ==>
              data == ErrorRecord(ExceptionError(http(RequestUrl(name)).description))
    ensures http(RequestUrl(name)).Response? && !IsSuccess(http(RequestUrl(name)).status) ==>
              data == ErrorRecord(ResponseError(http(RequestUrl(name)).status, http(RequestUrl(name)).urlRepr))
    ensures http(RequestUrl(name)).Response? && http(RequestUrl(name)).status == 200 ==>
              data == match http(RequestUrl(name)).body
                      case Decoded(record) => record
                      case Undecodable(d) => ErrorRecord(ExceptionError(d))
    ensures (&& http(RequestUrl(name)).Response? && IsSuccess(http(RequestUrl(name)).status)
             && http(RequestUrl(name)).status != 200) ==> data == EmptyRecord
  {
    match http(RequestUrl(name))
    case TransportFailure(urlRepr) => ErrorRecord(RequestError(urlRepr))
    case OtherFailure(description) => ErrorRecord(ExceptionError(description))
    case Response(status, urlRepr, body) =>
      if !IsSuccess(status) then ErrorRecord(ResponseError(status, urlRepr))
      else if status == 200 then
        match body
        case Decoded(record) => record
        case Undecodable(description) => ErrorRecord(ExceptionError(description))
      else EmptyRecord
  }

  /** Every way the exchange can fail ends in a record that carries an error and nothing
      else; only a 200 response with a body can carry data. */
  lemma FailuresCarryOnlyAnError(http: string -> HttpOutcome, name: string)
    requires !(http(RequestUrl(name)).Response? && IsSuccess(http(RequestUrl(name)).status))
    ensures var data := FetchPokemonData(http, name);
      data.error.Some? && data == ErrorRecord(data.error.value)
  {
  }

  // ---------------------------------------------------------------------------
  // The stats dictionary
  // ---------------------------------------------------------------------------

  /** The keys of a dictionary held as its items in insertion order. */
  function Keys(d: seq<(string, int)>): (ks: seq<string>)
    ensures |ks| == |d| && forall i :: 0 <= i < |d| ==> ks[i] == d[i].0
  {
    seq(|d|, i requires 0 <= i < |d| => d[i].0)
  }

  predicate DistinctKeys(d: seq<(string, int)>) {
    forall i, j :: 0 <= i < j < |d| ==> d[i].0 != d[j].0
  }

  function StatNames(entries: seq<StatEntry>): (names: seq<string>)
    ensures |names| == |entries| && forall i :: 0 <= i < |entries| ==> names[i] == entries[i].stat
  {
    seq(|entries|, i requires 0 <= i < |entries| => entries[i].stat)
  }

  function IndexOf(ks: seq<string>, k: string): (i: nat)
    requires k in ks
    ensures i < |ks| && ks[i] == k && forall j :: 0 <= j < i ==> ks[j] != k
  {
    if ks[0] == k then 0 else 1 + IndexOf(ks[1..], k)
  }

  /** `d[k] = v` on a dictionary: an existing key keeps its place and takes the new value, a
      new key goes last; every other item is unchanged. */
  function Insert(d: seq<(string, int)>, k: string, v: int): (r: seq<(string, int)>)
    requires DistinctKeys(d)
    ensures DistinctKeys(r)
    ensures Keys(r) == if k in Keys(d) then Keys(d) else Keys(d) + [k]
    ensures forall i :: 0 <= i < |r| ==> r[i].1 == if r[i].0 == k then v else d[i].1
  {
    if k in Keys(d) then
      var r := d[IndexOf(Keys(d), k) := (k, v)];
      assert Keys(r) == Keys(d);
      r
    else
      var r := d + [(k, v)];
      assert Keys(r) == Keys(d) + [k];
      r
  }

  /** The value of the last entry named `k`, if there is one. */
  function LastValue(entries: seq<StatEntry>, k: string): Option<int>
    decreases |entries|
  {
    if entries == [] then None
    else if entries[|entries| - 1].stat == k then Some(entries[|entries| - 1].baseStat)
    else LastValue(entries[..|entries| - 1], k)
  }

  lemma IndexOfAppend(a: seq<string>, b: seq<string>, k: string)
    requires k in a
    ensures IndexOf(a + b, k) == IndexOf(a, k)
  {
    if a[0] != k {
      assert (a + b)[1..] == a[1..] + b;
      IndexOfAppend(a[1..], b, k);
    }
  }

  /** The distinct elements of `s` in the order of their first occurrence. */
  function Dedup(s: seq<string>): (r: seq<string>)
    ensures forall x :: x in r <==> x in s
    ensures forall i, j :: 0 <= i < j < |r| ==> r[i] != r[j]
    decreases |s|
  {
    if s == [] then []
    else
      var n := |s| - 1;
      var prev := Dedup(s[..n]);
      assert forall x :: x in s <==> x in s[..n] || x == s[n];
      if s[n] in prev then prev else prev + [s[n]]
  }

  /** `Dedup` keeps the order in which the elements first occur. */
  lemma {:induction false} DedupOrder(s: seq<string>)
    ensures forall i, j :: 0 <= i < j < |Dedup(s)| ==> IndexOf(s, Dedup(s)[i]) < IndexOf(s, Dedup(s)[j])
    decreases |s|
  {
    if s != [] {
      var n := |s| - 1;
      var prev := Dedup(s[..n]);
      DedupOrder(s[..n]);
      assert s == s[..n] + [s[n]];
      forall x | x in prev ensures IndexOf(s, x) == IndexOf(s[..n], x) < n {
        IndexOfAppend(s[..n], [s[n]], x);
      }
      var r := Dedup(s);
      assert r == if s[n] in prev then prev else prev + [s[n]];
      forall i, j | 0 <= i < j < |r| ensures IndexOf(s, r[i]) < IndexOf(s, r[j]) {
        assert r[i] == prev[i] && prev[i] in prev;
        if j < |prev| {
          assert r[j] == prev[j] && prev[j] in prev;
          assert IndexOf(s[..n], prev[i]) < IndexOf(s[..n], prev[j]);
        } else {
          assert r[j] == s[n] && s[n] !in s[..n];
          assert IndexOf(s, s[n]) == n;
        }
      }
    }
  }

  /** The comprehension `{s["stat"]["name"]: s["base_stat"] for s in data["stats"]}`: one item
      per stat name, in the order the names first appear, each holding the value of the last
      entry with that name. */
  function StatsDict(entries: seq<StatEntry>): (d: seq<(string, int)>)
    ensures DistinctKeys(d)
    ensures Keys(d) == Dedup(StatNames(entries))
    ensures forall i :: 0 <= i < |d| ==> LastValue(entries, d[i].0) == Some(d[i].1)
    decreases |entries|
  {
    if entries == [] then []
    else
      var n := |entries| - 1;
      var prev := StatsDict(entries[..n]);
      var d := Insert(prev, entries[n].stat, entries[n].baseStat);
      StatsDictKeys(entries, prev, d);
      StatsDictValues(entries, prev, d);
      d
  }

  lemma StatsDictKeys(entries: seq<StatEntry>, prev: seq<(string, int)>, d: seq<(string, int)>)
    requires entries != [] && DistinctKeys(prev)
    requires Keys(prev) == Dedup(StatNames(entries[..|entries| - 1]))
    requires d == Insert(prev, entries[|entries| - 1].stat, entries[|entries| - 1].baseStat)
    ensures Keys(d) == Dedup(StatNames(entries))
  {
    var n := |entries| - 1;
    assert StatNames(entries)[..n] == StatNames(entries[..n]);
    assert StatNames(entries)[n] == entries[n].stat;
  }

  lemma StatsDictValues(entries: seq<StatEntry>, prev: seq<(string, int)>, d: seq<(string, int)>)
    requires entries != [] && DistinctKeys(prev)
    requires forall i :: 0 <= i < |prev| ==> LastValue(entries[..|entries| - 1], prev[i].0) == Some(prev[i].1)
    requires d == Insert(prev, entries[|entries| - 1].stat, entries[|entries| - 1].baseStat)
    ensures forall i :: 0 <= i < |d| ==> LastValue(entries, d[i].0) == Some(d[i].1)
  {
    var n := |entries| - 1;
    var k := entries[n].stat;
    forall i | 0 <= i < |d| ensures LastValue(entries, d[i].0) == Some(d[i].1) {
      if d[i].0 == k {
        assert d[i].1 == entries[n].baseStat;
      } else {
        assert i < |prev| && d[i] == prev[i] by {
          assert d[i].0 == Keys(d)[i];
        }
        assert LastValue(entries, d[i].0) == LastValue(entries[..n], d[i].0);
      }
    }
  }

  /** A name has a last value exactly when some entry carries it. */
  lemma {:induction false} LastValueExists(entries: seq<StatEntry>, k: string)
    ensures LastValue(entries, k).Some? <==> k in StatNames(entries)
    decreases |entries|
  {
    if entries != [] {
      var n := |entries| - 1;
      assert StatNames(entries) == StatNames(entries[..n]) + [entries[n].stat];
      LastValueExists(entries[..n], k);
    }
  }

  // ---------------------------------------------------------------------------
  // get_pokemon_info
  // ---------------------------------------------------------------------------

  /** `str(exc)` for the `KeyError` raised by a missing key. */
  function ProcessingError(key: string): string { "Pokemon data processing Error: '" + key + "'" }

  /** A list of names shown on one line: joined by ", ", or "N/A" when empty. */
  function NamesOrNA(names: seq<string>): string {
    if names == [] then "N/A" else Join(names, ", ")
  }

  function FieldText(field: Option<int>): string {
    match field
    case Some(n) => IntToString(n)
    case None => "N/A"
  }

  function StatsLine(entries: seq<StatEntry>): string {
    var d := StatsDict(entries);
    Join(seq(|d|, i requires 0 <= i < |d| => d[i].0 + ": " + IntToString(d[i].1)), ", ")
  }

  /** The lines of the formatted reply, in order. The reply starts with a line break and each
      following line is indented by four spaces; the last line holds the indentation only. */
  function InfoLines(name: string, data: Record): seq<string>
    requires data.stats.Some? && data.types.Some? && data.abilities.Some?
  {
    ["", "    Name: " + name] + DetailLines(data)
  }

  /** The lines after the Name line. */
  function DetailLines(data: Record): seq<string>
    requires data.stats.Some? && data.types.Some? && data.abilities.Some?
  {
    [ "    ID: " + FieldText(data.id),
      "    Height: " + FieldText(data.height) + " decimeters",
      "    Weight: " + FieldText(data.weight) + " hectograms",
      "    Types: " + NamesOrNA(data.types.value),
      "    Abilities: " + NamesOrNA(data.abilities.value),
      "    Base Stats: " + StatsLine(data.stats.value),
      "    " ]
  }

  /** `get_pokemon_info` on the record the lookup returned. */
  function FormatInfo(data: Record): (info: string)
    ensures data.error.Some? ==> info == data.error.value
    ensures data.error.None? && data.stats.None? ==> info == ProcessingError("stats")
    ensures data.error.None? && data.stats.Some? && data.types.None? ==> info == ProcessingError("types")
    ensures data.error.None? && data.stats.Some? && data.types.Some? && data.abilities.None? ==>
              info == ProcessingError("abilities")
    ensures data.error.None? && data.stats.Some? && data.types.Some? && data.abilities.Some? ==>
              StartsWith(info, "\n    Name: " + Capitalize(data.name.GetOr("N/A")) + "\n")
  {
    if data.error.Some? then data.error.value
    else if data.stats.None? then ProcessingError("stats")
    else if data.types.None? then ProcessingError("types")
    else if data.abilities.None? then ProcessingError("abilities")
    else
      InfoStartsWithName(Capitalize(data.name.GetOr("N/A")), data);
      Join(InfoLines(Capitalize(data.name.GetOr("N/A")), data), "\n")
  }

  /** The formatted text opens with a line break and the Name line. */
  lemma InfoStartsWithName(name: string, data: Record)
    requires data.stats.Some? && data.types.Some? && data.abilities.Some?
    ensures StartsWith(Join(InfoLines(name, data), "\n"), "\n    Name: " + name + "\n")
  {
    var lines := InfoLines(name, data);
    var nameLine := "    Name: " + name;
    assert lines == ["", nameLine] + DetailLines(data);
    JoinOpens("", nameLine, DetailLines(data), "\n");
    PrefixLiteral(name);
  }

  lemma PrefixLiteral(name: string)
    ensures "" + "\n" + ("    Name: " + name) + "\n" == "\n    Name: " + name + "\n"
  {
    assert "" + "\n" == "\n";
  }

  /** A join of two parts and more opens with the two, each followed by the separator. */
  lemma JoinOpens(a: string, b: string, rest: seq<string>, sep: string)
    requires rest != []
    ensures StartsWith(Join([a, b] + rest, sep), a + sep + b + sep)
  {
    var parts := [a, b] + rest;
    assert parts[1..][1..] == rest;
    var head := a + sep + b + sep;
    assert Join(parts, sep) == head + Join(rest, sep);
    assert (head + Join(rest, sep))[..|head|] == head;
  }

  /** `get_pokemon_info(pokemon_name)`, with the HTTP exchange of `fetch_pokemon_data` given
      as `http`: a failed exchange is reported by its error text, unchanged; a 2xx answer
      other than 200 gives the empty record, which has no stats. */
  function GetPokemonInfo(http: string -> HttpOutcome, pokemonName: string): (info: string)
    ensures FetchPokemonData(http, pokemonName).error.Some? ==>
              info == FetchPokemonData(http, pokemonName).error.value
    ensures http(RequestUrl(pokemonName)).TransportFailure? ==>
              info == RequestError(http(RequestUrl(pokemonName)).urlRepr)
    ensures http(RequestUrl(pokemonName)).Response? && !IsSuccess(http(RequestUrl(pokemonName)).status) ==>
              info == ResponseError(http(RequestUrl(pokemonName)).status, http(RequestUrl(pokemonName)).urlRepr)
    ensures (&& http(RequestUrl(pokemonName)).Response? && IsSuccess(http(RequestUrl(pokemonName)).status)
             && http(RequestUrl(pokemonName)).status != 200) ==> info == ProcessingError("stats")
  {
    FormatInfo(FetchPokemonData(http, pokemonName))
  }

  /** A complete record is shown as the nine lines of `InfoLines`, whenever none of the
      values shown contains a line break. */
  lemma FormattedInfoLines(data: Record)
    requires data.error.None? && data.stats.Some? && data.types.Some? && data.abilities.Some?
    requires var lines := InfoLines(Capitalize(data.name.GetOr("N/A")), data);
      forall i :: 0 <= i < |lines| ==> '\n' !in lines[i]
    ensures Split(FormatInfo(data), '\n') == InfoLines(Capitalize(data.name.GetOr("N/A")), data)
  {
    SplitJoinLines(InfoLines(Capitalize(data.name.GetOr("N/A")), data));
  }

  /** The Types and Abilities lines: with no names "N/A", otherwise the names in order, so
      that splitting on "," gives them back one per part (after the first, with the space
      that followed the comma). */
  lemma NamesLineParts(names: seq<string>)
    requires names != [] && forall i :: 0 <= i < |names| ==> ',' !in names[i]
    ensures Split(NamesOrNA(names), ',')
      == [names[0]] + seq(|names| - 1, i requires 0 <= i < |names| - 1 => " " + names[i + 1])
  {
    assert ", " == [','] + " ";
    SplitJoin(names, ',', " ");
  }

  /** The Name line shows the record's name capitalised, whatever the case it came in. */
  lemma NameIgnoresCase(data: Record, other: Record)
    requires data.name.Some? && other.name.Some? && Lower(data.name.value) == Lower(other.name.value)
    requires other == data.(name := other.name)
    requires data.error.None? && data.stats.Some? && data.types.Some? && data.abilities.Some?
    ensures FormatInfo(data) == FormatInfo(other)
  {
    CapitalizeIgnoresCase(data.name.value, other.name.value);
  }

  // ---------------------------------------------------------------------------
  // Fixed lists of names
  // ---------------------------------------------------------------------------

  const TopPokemon: seq<string> := [
    "charizard", "garchomp", "lucario", "dragonite", "metagross",
    "gardevoir", "tyranitar", "entei", "suicune", "raikou"]

  const PopularHeader := "Top 10 popular Pokemon: \n\n "
  const SquadHeader := "Your tournament squad: \n\n "

  /** Splitting a header followed by names joined with ", " on "," gives one part per name,
      when neither the header nor any name holds a comma. */
  lemma CommaParts(header: string, names: seq<string>)
    requires ',' !in header && names != []
    requires forall i :: 0 <= i < |names| ==> ',' !in names[i]
    ensures Split(header + Join(names, ", "), ',')
      == [header + names[0]] + seq(|names| - 1, i requires 0 <= i < |names| - 1 => " " + names[i + 1])
  {
    assert ", " == [','] + " ";
    SplitJoin(names, ',', " ");
    SplitPrepend(header, Join(names, ", "), ',');
  }

  /** Names without commas joined by ", " after a header without commas: one comma fewer
      than there are names. */
  lemma CommaCount(header: string, names: seq<string>)
    requires ',' !in header && names != []
    requires forall i :: 0 <= i < |names| ==> ',' !in names[i]
    ensures StartsWith(header + Join(names, ", "), header)
    ensures Count(header + Join(names, ", "), ',') == |names| - 1
  {
    assert (header + Join(names, ", "))[..|header|] == header;
    CommaParts(header, names);
  }

  /** `list_popular_pokemon`: the header, then the ten names separated by nine commas. */
  function ListPopularPokemon(): (list: string)
    ensures StartsWith(list, PopularHeader) && Count(list, ',') == |TopPokemon| - 1
  {
    PopularListCount();
    PopularHeader + Join(TopPokemon, ", ")
  }

  lemma PopularListCount()
    ensures var list := PopularHeader + Join(TopPokemon, ", ");
      StartsWith(list, PopularHeader) && Count(list, ',') == |TopPokemon| - 1
  {
    TopPokemonHaveNoComma();
    HeaderHasNoComma();
    CommaCount(PopularHeader, TopPokemon);
  }

  lemma HeaderHasNoComma()
    ensures ',' !in PopularHeader
  {
  }

  /** The popular list splits on "," into ten parts, one per name, in the fixed order. */
  lemma PopularListParts()
    ensures Split(ListPopularPokemon(), ',')
      == [PopularHeader + TopPokemon[0]] + seq(9, i requires 0 <= i < 9 => " " + TopPokemon[i + 1])
    ensures |Split(ListPopularPokemon(), ',')| == 10
  {
    TopPokemonHaveNoComma();
    CommaParts(PopularHeader, TopPokemon);
  }

  lemma TopPokemonHaveNoComma()
    ensures forall i :: 0 <= i < |TopPokemon| ==> ',' !in TopPokemon[i]
  {
    assert ',' !in "charizard" && ',' !in "garchomp";
    assert ',' !in "lucario" && ',' !in "dragonite";
    assert ',' !in "metagross" && ',' !in "gardevoir";
    assert ',' !in "tyranitar" && ',' !in "entei";
    assert ',' !in "suicune" && ',' !in "raikou";
  }

  // ---------------------------------------------------------------------------
  // create_tournament_squad
  // ---------------------------------------------------------------------------

  /** How `create_tournament_squad` ends: it returns a text, or `data["name"]` raises a
      `KeyError` for a record that has neither an error nor a name. */
  datatype SquadReply = Reply(text: string) | KeyErrorRaised(key: string)

  /** A lookup that ends the loop: it reported an error, or has no name to take. */
  predicate Stops(data: Record) { data.error.Some? || data.name.None? }

  /** The position of the first record that ends the loop, or the length when none does. */
  function StopIndex(records: seq<Record>): (k: nat)
    ensures k <= |records|
    ensures forall j :: 0 <= j < k ==> !Stops(records[j])
    ensures k < |records| ==> Stops(records[k])
  {
    if records == [] then 0
    else if Stops(records[0]) then 0
    else 1 + StopIndex(records[1..])
  }

  /** The records the lookup gives for the ten names, in order. */
  function SquadRecords(lookup: string -> Record): (records: seq<Record>)
    ensures |records| == |TopPokemon| && forall i :: 0 <= i < |TopPokemon| ==> records[i] == lookup(TopPokemon[i])
  {
    seq(|TopPokemon|, i requires 0 <= i < |TopPokemon| => lookup(TopPokemon[i]))
  }

  function SquadNames(records: seq<Record>): (names: seq<string>)
    requires forall j :: 0 <= j < |records| ==> records[j].name.Some?
    ensures |names| == |records| && forall j :: 0 <= j < |records| ==> names[j] == Capitalize(records[j].name.value)
  {
    seq(|records|, j requires 0 <= j < |records| => Capitalize(records[j].name.value))
  }

  /** The reply for these records: the first error if a record before any nameless one
      carries one, a `KeyError` at a nameless record, otherwise the capitalised names. */
  function SquadOutcome(records: seq<Record>): (reply: SquadReply)
    ensures forall k :: 0 <= k < |records| && Stops(records[k]) && (forall j :: 0 <= j < k ==> !Stops(records[j])) ==>
              reply == if records[k].error.Some? then Reply(records[k].error.value) else KeyErrorRaised("name")
    ensures (forall j :: 0 <= j < |records| ==> !Stops(records[j])) ==>
              reply == Reply(SquadHeader + Join(SquadNames(records), ", "))
  {
    var k := StopIndex(records);
    if k == |records| then Reply(SquadHeader + Join(SquadNames(records), ", "))
    else if records[k].error.Some? then Reply(records[k].error.value)
    else KeyErrorRaised("name")
  }

  /** `create_tournament_squad`, with `fetch_pokemon_data` given as `lookup`. `looked` is the
      list of names handed to the lookup, in order: the loop stops at the first record that
      ends it, and no later name is looked up. */
  method CreateTournamentSquad(lookup: string -> Record) returns (reply: SquadReply, looked: seq<string>)
    ensures reply == SquadOutcome(SquadRecords(lookup))
    ensures var k := StopIndex(SquadRecords(lookup));
      looked == if k == |TopPokemon| then TopPokemon else TopPokemon[..k + 1]
  {
    ghost var records := SquadRecords(lookup);
    var squad: seq<string> := [];
    looked := [];
    var i := 0;
    while i < |TopPokemon|
      invariant 0 <= i <= |TopPokemon|
      invariant looked == TopPokemon[..i]
      invariant forall j :: 0 <= j < i ==> !Stops(records[j])
      invariant squad == SquadNames(records[..i])
    {
      var pokemon := TopPokemon[i];
      var data := lookup(pokemon);
      looked := looked + [pokemon];
      SliceExtends(TopPokemon, i);
      if data.error.Some? {
        SquadStopsAt(lookup, i);
        return Reply(data.error.value), looked;
      }
      if data.name.None? {
        SquadStopsAt(lookup, i);
        return KeyErrorRaised("name"), looked;
      }
      SquadNamesExtend(records, i);
      squad := squad + [Capitalize(data.name.value)];
      i := i + 1;
    }
    assert records[..i] == records;
    SquadCompletes(records, squad);
    SliceWhole(TopPokemon);
    reply := Reply(SquadHeader + Join(squad, ", "));
  }

  lemma SquadNamesExtend(records: seq<Record>, i: nat)
    requires i < |records|
    requires forall j :: 0 <= j <= i ==> records[j].name.Some?
    ensures SquadNames(records[..i + 1]) == SquadNames(records[..i]) + [Capitalize(records[i].name.value)]
  {
  }

  lemma SliceExtends(s: seq<string>, i: nat)
    requires i < |s|
    ensures s[..i] + [s[i]] == s[..i + 1]
  {
  }

  lemma SliceWhole(s: seq<string>)
    ensures s[..|s|] == s
  {
  }

  /** The loop ends at the `i`-th name when that is the first lookup that stops it. */
  lemma SquadStopsAt(lookup: string -> Record, i: nat)
    requires i < |TopPokemon|
    requires forall j :: 0 <= j < i ==> !Stops(lookup(TopPokemon[j]))
    requires Stops(lookup(TopPokemon[i]))
    ensures StopIndex(SquadRecords(lookup)) == i
    ensures SquadOutcome(SquadRecords(lookup))
      == if lookup(TopPokemon[i]).error.Some? then Reply(lookup(TopPokemon[i]).error.value) else KeyErrorRaised("name")
  {
    StopIndexAt(SquadRecords(lookup), i);
  }

  /** When no record stops the loop, the reply lists the collected names. */
  lemma SquadCompletes(records: seq<Record>, squad: seq<string>)
    requires forall j :: 0 <= j < |records| ==> records[j].error.None? && records[j].name.Some?
    requires squad == SquadNames(records)
    ensures StopIndex(records) == |records|
    ensures SquadOutcome(records) == Reply(SquadHeader + Join(squad, ", "))
  {
    StopIndexAt(records, |records|);
  }

  /** The stopping position is the first one that stops. */
  lemma {:induction false} StopIndexAt(records: seq<Record>, i: nat)
    requires i <= |records|
    requires forall j :: 0 <= j < i ==> !Stops(records[j])
    requires i < |records| ==> Stops(records[i])
    ensures StopIndex(records) == i
  {
    if records != [] && i > 0 {
      assert !Stops(records[0]);
      assert forall j :: 0 <= j < i - 1 ==> records[1..][j] == records[j + 1];
      StopIndexAt(records[1..], i - 1);
    }
  }

  /** When every lookup gives a name and no error, the squad is the ten names capitalised,
      in list order. */
  lemma SquadOfFoundNames(lookup: string -> Record)
    requires forall i :: 0 <= i < |TopPokemon| ==>
               lookup(TopPokemon[i]).error.None? && lookup(TopPokemon[i]).name.Some?
    ensures var records := SquadRecords(lookup);
      && StopIndex(records) == |TopPokemon|
      && SquadOutcome(records)
         == Reply(SquadHeader + Join(seq(10, i requires 0 <= i < 10 => Capitalize(lookup(TopPokemon[i]).name.value)), ", "))
  {
    var records := SquadRecords(lookup);
    StopIndexAt(records, |TopPokemon|);
    assert SquadNames(records) == seq(10, i requires 0 <= i < 10 => Capitalize(lookup(TopPokemon[i]).name.value));
  }

  /** The found names split back apart on "," into ten parts, when no name holds a comma. */
  lemma SquadPartsOfFoundNames(lookup: string -> Record)
    requires forall i :: 0 <= i < |TopPokemon| ==>
               lookup(TopPokemon[i]).error.None? && lookup(TopPokemon[i]).name.Some?
               && ',' !in lookup(TopPokemon[i]).name.value
    ensures SquadOutcome(SquadRecords(lookup)).Reply?
    ensures |Split(SquadOutcome(SquadRecords(lookup)).text, ',')| == |TopPokemon|
  {
    var records := SquadRecords(lookup);
    StopIndexAt(records, |TopPokemon|);
    var names := SquadNames(records);
    forall i | 0 <= i < |names| ensures ',' !in names[i] {
      CapitalizeKeepsNonLetter(records[i].name.value, ',');
    }
    CommaParts(SquadHeader, names);
  }

  /** With a lookup that echoes each name back as the record's name (and nothing else),
      the squad lists the ten fixed names capitalised, in order, starting with "Charizard". */
  lemma SquadOfEchoLookup(lookup: string -> Record)
    requires forall n :: lookup(n) == EmptyRecord.(name := Some(n))
    ensures SquadOutcome(SquadRecords(lookup))
      == Reply(SquadHeader + Join(seq(10, i requires 0 <= i < 10 => Capitalize(TopPokemon[i])), ", "))
    ensures Capitalize(TopPokemon[0]) == "Charizard"
  {
    var records := SquadRecords(lookup);
    forall j | 0 <= j < |records| ensures records[j].name == Some(TopPokemon[j]) && !Stops(records[j]) {
      assert records[j] == lookup(TopPokemon[j]);
    }
    StopIndexAt(records, |TopPokemon|);
    assert SquadNames(records) == seq(10, i requires 0 <= i < 10 => Capitalize(TopPokemon[i]));
    CharizardCapitalized();
  }

  lemma CharizardCapitalized()
    ensures Capitalize("charizard") == "Charizard"
  {
    assert Lower("harizard") == "harizard";
  }

  /** The first record that reports an error decides the reply, provided every record
      before it has a name and no error. */
  lemma SquadReturnsFirstError(lookup: string -> Record, k: nat)
    requires k < |TopPokemon|
    requires forall j :: 0 <= j < k ==>
               lookup(TopPokemon[j]).error.None? && lookup(TopPokemon[j]).name.Some?
    requires lookup(TopPokemon[k]).error.Some?
    ensures SquadOutcome(SquadRecords(lookup)) == Reply(lookup(TopPokemon[k]).error.value)
    ensures StopIndex(SquadRecords(lookup)) == k
  {
    StopIndexAt(SquadRecords(lookup), k);
  }
}
