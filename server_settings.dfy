/**
 * Parsers and validators of server settings (ServerSettings.cpp). A parser
 * that throws `boost::program_options::error` returns `Err` here, with the
 * values its message shows.
 */
module ServerSettings {
  import opened Wrappers
  import Text
  import opened Debug

  /** Largest number of storage threads a pool may have. */
  const STORAGE_THREADS_MAX: int := 10000

  datatype ParseError =
    | InvalidTags
    | InvalidStorageThreads(pool: string, threads: int, min: int)
    | InvalidSequencers(sequencers: string)
    | InvalidRole(role: string)
    | InvalidPriorityDefinition(text: string)
    | InvalidLoglevelOverrides(overrides: string)
    | InvalidLoglevelOverridesLevel(levelOverrides: string)
    | NotPositive(setting: string)
    | Negative(setting: string)

  datatype SequencerOptions = ALL | LAZY | NONE

  /** The role bits a node may have. */
  datatype RoleSet = RoleSet(sequencer: bool, storage: bool)

  // ---------------------------------------------------------------- tags

  /**
   * The tag pairs the loop inserts: a key up to the next ':', a value up to
   * the next ',', then the rest; a later key overwrites an earlier one.
   */
  function AddTags(tags: map<string, string>, s: string): map<string, string>
    decreases |s|
  {
    if s == [] then tags
    else
      var (key, rest) := Text.SplitStep(s, ':');
      var (value, rest2) := Text.SplitStep(rest, ',');
      AddTags(tags[key := value], rest2)
  }

  /** One pair as the tag pattern admits it: a non-empty run of characters (colons included), a ':', and a value. */
  predicate TagItemAsWritten(item: string)
  {
    exists i :: 1 <= i < |item| && item[i] == ':'
  }

  /** `[^,]+:[^,]*(,[^,]+:[^,]*)*`: every comma-separated item is a pair. */
  predicate TagListAsWritten(s: string)
  {
    var items := Text.Split(s, ',');
    forall i :: 0 <= i < |items| ==> TagItemAsWritten(items[i])
  }

  /** A pair whose key is non-empty and free of colons, as the error message describes. */
  predicate TagItem(item: string)
  {
    ':' in item && item[0] != ':'
  }

  /** `[^,:]+:[^,]*(,[^,:]+:[^,]*)*`. */
  predicate TagList(s: string)
  {
    var items := Text.Split(s, ',');
    forall i :: 0 <= i < |items| ==> TagItem(items[i])
  }

  /** The loop of parse_tags: split_step at ':' for the key and at ',' for the value, until nothing is left. */
  method SplitTags(s: string) returns (tags: map<string, string>)
    ensures tags == AddTags(map[], s)
  {
    tags := map[];
    var splitter := s;
    while splitter != []
      invariant AddTags(map[], s) == AddTags(tags, splitter)
      decreases |splitter|
    {
      var (key, rest) := Text.SplitStep(splitter, ':');
      var (value, rest2) := Text.SplitStep(rest, ',');
      tags := tags[key := value];
      splitter := rest2;
    }
  }

  /** parse_tags as written: the pattern lets a key that starts with ':' through, and the key parsed is then empty. */
  method ParseTagsAsWritten(s: string) returns (r: Result<map<string, string>, ParseError>)
    ensures s == [] ==> r == Ok(map[])
    ensures s != [] && !TagListAsWritten(s) ==> r == Err(InvalidTags)
    ensures s != [] && TagListAsWritten(s) ==> r == Ok(AddTags(map[], s))
  {
    if s == [] {
      return Ok(map[]);
    }
    if !TagListAsWritten(s) {
      return Err(InvalidTags);
    }
    var tags := SplitTags(s);
    r := Ok(tags);
  }

  /** parse_tags with the pattern the message describes: keys are never empty and hold no ':' or ','. */
  method ParseTags(s: string) returns (r: Result<map<string, string>, ParseError>)
    ensures s == [] ==> r == Ok(map[])
    ensures s != [] && !TagList(s) ==> r == Err(InvalidTags)
    ensures s != [] && TagList(s) ==> r == Ok(AddTags(map[], s))
    ensures r.Ok? ==> forall k :: k in r.value ==> GoodKey(k)
  {
    if s == [] {
      return Ok(map[]);
    }
    if !TagList(s) {
      return Err(InvalidTags);
    }
    var tags := SplitTags(s);
    ParsedTagKeys(map[], s);
    r := Ok(tags);
  }

  /** split_step at a delimiter the first part is free of. */
  lemma SplitStepAfterFree(a: string, d: char, b: string)
    requires d !in a
    ensures Text.SplitStep(a + [d] + b, d) == (a, b)
  {
    Text.IndexOfAfterFree(a, d, b);
    var s := a + [d] + b;
    assert s[..|a|] == a && s[|a| + 1..] == b;
  }

  /** One pair followed by more items: the loop stores the pair and goes on with the rest. */
  lemma AddTagsPair(tags: map<string, string>, key: string, value: string, rest: string)
    requires ':' !in key && ',' !in value
    ensures AddTags(tags, key + ":" + value + "," + rest) == AddTags(tags[key := value], rest)
  {
    var s := key + ":" + value + "," + rest;
    assert s == key + [':'] + (value + [','] + rest);
    SplitStepAfterFree(key, ':', value + [','] + rest);
    SplitStepAfterFree(value, ',', rest);
  }

  /** The last pair: the loop stores it and stops. */
  lemma AddTagsLast(tags: map<string, string>, key: string, value: string)
    requires ':' !in key && ',' !in value
    ensures AddTags(tags, key + ":" + value) == tags[key := value]
  {
    var s := key + ":" + value;
    assert s == key + [':'] + value;
    SplitStepAfterFree(key, ':', value);
    assert AddTags(tags[key := value], []) == tags[key := value];
  }

  /** The items of a list with a comma: the first one, then the items of what follows its comma. */
  lemma SplitFirst(s: string)
    requires ',' in s
    ensures var (item, rest) := Text.SplitStep(s, ',');
            Text.Split(s, ',') == [item] + Text.Split(rest, ',')
  {
  }

  /** A key the error message of parse_tags allows: non-empty, with no ':' or ','. */
  predicate GoodKey(k: string)
  {
    k != [] && ':' !in k && ',' !in k
  }

  /** The first pair of a list under the intended pattern has a good key. */
  lemma FirstPairKey(s: string)
    requires TagList(s)
    ensures var item := Text.Split(s, ',')[0];
            var (key, value) := Text.SplitStep(item, ':');
            item == key + ":" + value && GoodKey(key) && ',' !in value
  {
    var items := Text.Split(s, ',');
    var item := items[0];
    assert TagItem(item);
    var (key, value) := Text.SplitStep(item, ':');
    assert item == key + [':'] + value;
    assert key != [] by {
      assert item[0] != ':';
    }
    if ',' in s {
      SplitFirst(s);
      assert item == Text.SplitStep(s, ',').0;
    } else {
      assert item == s;
    }
  }

  /** The items after the first one of a well-formed list form a well-formed list. */
  lemma TagListRest(s: string)
    requires TagList(s) && ',' in s
    ensures TagList(Text.SplitStep(s, ',').1)
  {
    var (item, rest) := Text.SplitStep(s, ',');
    SplitFirst(s);
    TagItemsTail([item], Text.Split(rest, ','));
  }

  /** Every item of a list of pairs that ends another such list is a pair. */
  lemma TagItemsTail(pre: seq<string>, items: seq<string>)
    requires forall i :: 0 <= i < |pre + items| ==> TagItem((pre + items)[i])
    ensures forall i :: 0 <= i < |items| ==> TagItem(items[i])
  {
    forall i | 0 <= i < |items| ensures TagItem(items[i]) {
      assert items[i] == (pre + items)[i + |pre|];
    }
  }

  /** Under the intended pattern every parsed key is non-empty and holds no ':' or ','. */
  lemma {:induction false} ParsedTagKeys(tags: map<string, string>, s: string)
    requires TagList(s)
    requires forall k :: k in tags ==> GoodKey(k)
    ensures forall k :: k in AddTags(tags, s) ==> GoodKey(k)
    decreases |s|
  {
    var items := Text.Split(s, ',');
    var item := items[0];
    FirstPairKey(s);
    var (key, value) := Text.SplitStep(item, ':');
    if ',' in s {
      var (first, rest) := Text.SplitStep(s, ',');
      SplitFirst(s);
      assert s == key + ":" + value + "," + rest;
      AddTagsPair(tags, key, value, rest);
      TagListRest(s);
      ParsedTagKeys(tags[key := value], rest);
    } else {
      assert s == key + ":" + value;
      AddTagsLast(tags, key, value);
    }
  }

  /**
   * The pattern as written accepts ":x:y", whose key comes out empty; the
   * intended pattern rejects it.
   */
  lemma TagPatternAdmitsEmptyKey()
    ensures TagListAsWritten(":x:y")
    ensures AddTags(map[], ":x:y") == map["" := "x:y"]
    ensures !TagList(":x:y")
  {
    var s := ":x:y";
    assert Text.Split(s, ',') == [s];
    assert s[2] == ':';
    assert s == "" + ":" + "x:y";
    AddTagsLast(map[], "", "x:y");
    assert !TagItem(Text.Split(s, ',')[0]);
  }

  /** Two pairs are stored in order. */
  lemma AddTagsTwoPairs(tags: map<string, string>, k1: string, v1: string, k2: string, v2: string)
    requires ':' !in k1 && ',' !in v1 && ':' !in k2 && ',' !in v2
    ensures AddTags(tags, k1 + ":" + v1 + "," + k2 + ":" + v2) == tags[k1 := v1][k2 := v2]
  {
    var second := k2 + ":" + v2;
    assert k1 + ":" + v1 + "," + k2 + ":" + v2 == k1 + ":" + v1 + "," + second;
    AddTagsPair(tags, k1, v1, second);
    AddTagsLast(tags[k1 := v1], k2, v2);
  }

  /** A later pair with the same key overwrites the earlier one. */
  lemma LaterTagWins(key: string, v1: string, v2: string)
    requires ':' !in key && ',' !in v1 && ',' !in v2
    ensures AddTags(map[], key + ":" + v1 + "," + key + ":" + v2) == map[key := v2]
  {
    var m: map<string, string> := map[];
    AddTagsTwoPairs(m, key, v1, key, v2);
    OverwriteSameKey(m, key, v1, v2);
  }

  lemma OverwriteSameKey(m: map<string, string>, key: string, v1: string, v2: string)
    ensures m[key := v1][key := v2] == m[key := v2]
  {
  }

  // ---------------------------------------------------------- validators

  /** validate_storage_threads: a pool size must lie in [min, STORAGE_THREADS_MAX]. */
  function ValidateStorageThreads(name: string, value: int, min: int): (r: Option<ParseError>)
    ensures r.None? <==> min <= value <= STORAGE_THREADS_MAX
    ensures r.Some? ==> r.value == InvalidStorageThreads(name, value, min)
  {
    if value < min || value > STORAGE_THREADS_MAX then Some(InvalidStorageThreads(name, value, min)) else None
  }

  /** validate_sequencers. */
  function ValidateSequencers(value: string): (r: Result<SequencerOptions, ParseError>)
    ensures r.Ok? <==> value == "all" || value == "lazy" || value == "none"
    ensures value == "all" ==> r == Ok(ALL)
    ensures value == "lazy" ==> r == Ok(LAZY)
    ensures value == "none" ==> r == Ok(SequencerOptions.NONE)
    ensures r.Err? ==> r.error == InvalidSequencers(value)
  {
    if value == "all" then Ok(ALL)
    else if value == "lazy" then Ok(LAZY)
    else if value == "none" then Ok(SequencerOptions.NONE)
    else Err(InvalidSequencers(value))
  }

  predicate IsRole(role: string)
  {
    role == "sequencer" || role == "storage"
  }

  /** parse_roles: each comma-separated token sets its role's bit; any other token is an error (so is the empty string). */
  method ParseRoles(value: string) returns (r: Result<RoleSet, ParseError>)
    ensures r.Ok? ==> forall i :: 0 <= i < |Text.Split(value, ',')| ==> IsRole(Text.Split(value, ',')[i])
    ensures r.Ok? ==> (r.value.sequencer <==> "sequencer" in Text.Split(value, ',')) &&
                      (r.value.storage <==> "storage" in Text.Split(value, ','))
    ensures r.Err? ==> exists i :: 0 <= i < |Text.Split(value, ',')| && !IsRole(Text.Split(value, ',')[i]) &&
                                   r.error == InvalidRole(Text.Split(value, ',')[i]) &&
                                   forall j :: 0 <= j < i ==> IsRole(Text.Split(value, ',')[j])
  {
    var roleStrs := Text.Split(value, ',');
    var roles := RoleSet(false, false);
    for i := 0 to |roleStrs|
      invariant forall j :: 0 <= j < i ==> IsRole(roleStrs[j])
      invariant roles.sequencer <==> "sequencer" in roleStrs[..i]
      invariant roles.storage <==> "storage" in roleStrs[..i]
    {
      assert roleStrs[..i + 1] == roleStrs[..i] + [roleStrs[i]];
      if roleStrs[i] == "sequencer" {
        roles := roles.(sequencer := true);
      } else if roleStrs[i] == "storage" {
        roles := roles.(storage := true);
      } else {
        return Err(InvalidRole(roleStrs[i]));
      }
    }
    assert roleStrs[..|roleStrs|] == roleStrs;
    r := Ok(roles);
  }

  /** The per-priority values after the mappings, in order; the first bad mapping stops the parse. */
  function PerPriority<P(==), T>(acc: map<P, T>, mappings: seq<string>, parsePriority: string -> Option<P>,
                                 parseValue: string -> Result<T, ParseError>): Result<map<P, T>, ParseError>
    decreases |mappings|
  {
    if mappings == [] then Ok(acc)
    else
      var kv := Text.Split(mappings[0], ':');
      if |kv| != 2 then Err(InvalidPriorityDefinition(mappings[0]))
      else if parsePriority(kv[0]).None? then Err(InvalidPriorityDefinition(kv[0]))
      else
        var v := parseValue(kv[1]);
        if v.Err? then Err(v.error)
        else PerPriority(acc[parsePriority(kv[0]).value := v.value], mappings[1..], parsePriority, parseValue)
  }

  /**
   * parse_values_per_network_priority: `parsePriority` stands for
   * parse_network_priority and `parseValue` for the per-value function
   * (a port or a unix socket path check).
   */
  method ParseValuesPerNetworkPriority<P(==), T>(value: string, parsePriority: string -> Option<P>,
                                                 parseValue: string -> Result<T, ParseError>)
    returns (r: Result<map<P, T>, ParseError>)
    ensures value == [] ==> r == Ok(map[])
    ensures value != [] ==> r == PerPriority(map[], Text.Split(value, ','), parsePriority, parseValue)
  {
    var result: map<P, T> := map[];
    if value == [] {
      return Ok(result);
    }
    var mappingStrs := Text.Split(value, ',');
    for i := 0 to |mappingStrs|
      invariant PerPriority(map[], mappingStrs, parsePriority, parseValue) ==
                PerPriority(result, mappingStrs[i..], parsePriority, parseValue)
    {
      assert mappingStrs[i..][1..] == mappingStrs[i + 1..];
      var kvStr := Text.Split(mappingStrs[i], ':');
      if |kvStr| != 2 {
        return Err(InvalidPriorityDefinition(mappingStrs[i]));
      }
      var priority := parsePriority(kvStr[0]);
      if priority.None? {
        return Err(InvalidPriorityDefinition(kvStr[0]));
      }
      var v := parseValue(kvStr[1]);
      if v.Err? {
        return Err(v.error);
      }
      result := result[priority.value := v.value];
    }
    r := Ok(result);
  }

  /**
   * Of several mappings for one priority the last one's value is kept: a
   * successful parse maps each parsed priority to the value of the last
   * mapping that names it.
   */
  lemma {:induction false} LastMappingWins<P, T>(acc: map<P, T>, mappings: seq<string>,
                                                     parsePriority: string -> Option<P>,
                                                     parseValue: string -> Result<T, ParseError>, j: nat)
    requires PerPriority(acc, mappings, parsePriority, parseValue).Ok?
    requires j < |mappings|
    requires var kv := Text.Split(mappings[j], ':');
             |kv| == 2 && parsePriority(kv[0]).Some? &&
             forall k :: j < k < |mappings| ==>
               parsePriority(Text.Split(mappings[k], ':')[0]) != parsePriority(kv[0])
    ensures var kv := Text.Split(mappings[j], ':');
            var r := PerPriority(acc, mappings, parsePriority, parseValue).value;
            parsePriority(kv[0]).value in r && parseValue(kv[1]).Ok? &&
            r[parsePriority(kv[0]).value] == parseValue(kv[1]).value
    decreases |mappings|
  {
    var kv0 := Text.Split(mappings[0], ':');
    var acc1 := acc[parsePriority(kv0[0]).value := parseValue(kv0[1]).value];
    if j == 0 {
      KeptAfter(acc1, mappings[1..], parsePriority, parseValue, parsePriority(kv0[0]).value);
    } else {
      forall k | j - 1 < k < |mappings[1..]|
        ensures parsePriority(Text.Split(mappings[1..][k], ':')[0]) != parsePriority(Text.Split(mappings[1..][j - 1], ':')[0])
      {
        assert mappings[1..][k] == mappings[k + 1];
      }
      LastMappingWins(acc1, mappings[1..], parsePriority, parseValue, j - 1);
    }
  }

  /** An entry no later mapping names is kept to the end. */
  lemma {:induction false} KeptAfter<P, T>(acc: map<P, T>, mappings: seq<string>,
                                               parsePriority: string -> Option<P>,
                                               parseValue: string -> Result<T, ParseError>, p: P)
    requires PerPriority(acc, mappings, parsePriority, parseValue).Ok? && p in acc
    requires forall k :: 0 <= k < |mappings| ==> parsePriority(Text.Split(mappings[k], ':')[0]) != Some(p)
    ensures p in PerPriority(acc, mappings, parsePriority, parseValue).value
    ensures PerPriority(acc, mappings, parsePriority, parseValue).value[p] == acc[p]
    decreases |mappings|
  {
    if mappings != [] {
      var kv0 := Text.Split(mappings[0], ':');
      var acc1 := acc[parsePriority(kv0[0]).value := parseValue(kv0[1]).value];
      assert parsePriority(kv0[0]) != Some(p);
      forall k | 0 <= k < |mappings[1..]| ensures parsePriority(Text.Split(mappings[1..][k], ':')[0]) != Some(p) {
        assert mappings[1..][k] == mappings[k + 1];
      }
      KeptAfter(acc1, mappings[1..], parsePriority, parseValue, p);
    }
  }

  /** A `module:level` item with a valid level. */
  predicate ValidOverride(item: string, parseLoglevel: string -> Level)
  {
    var parts := Text.Split(item, ':');
    |parts| == 2 && parseLoglevel(parts[1]) != Level.NONE
  }

  /** The module an override names: the text before its first ':'. */
  function OverrideModule(item: string): string
  {
    Text.Split(item, ':')[0]
  }

  /** The error an invalid item raises: the format error first, then the level error. */
  function OverrideError(item: string, value: string): ParseError
  {
    if |Text.Split(item, ':')| != 2 then InvalidLoglevelOverrides(value) else InvalidLoglevelOverridesLevel(value)
  }

  /** The level an override item names (its part after the ':'). */
  function OverrideLevel(item: string, parseLoglevel: string -> Level): Level
  {
    var parts := Text.Split(item, ':');
    if |parts| >= 2 then parseLoglevel(parts[1]) else Level.NONE
  }

  /**
   * The overrides parsed from `configs` on top of `acc`, item by item: the
   * first invalid item ends the parse with its error, and each valid item
   * maps its module to its level.
   */
  function Overrides(acc: map<string, Level>, configs: seq<string>, value: string, parseLoglevel: string -> Level)
    : Result<map<string, Level>, ParseError>
    decreases |configs|
  {
    if configs == [] then Ok(acc)
    else if !ValidOverride(configs[0], parseLoglevel) then Err(OverrideError(configs[0], value))
    else Overrides(acc[OverrideModule(configs[0]) := OverrideLevel(configs[0], parseLoglevel)], configs[1..],
                   value, parseLoglevel)
  }

  /** No item after position `j` names the module item `j` names. */
  ghost predicate LastForModule(configs: seq<string>, j: nat)
    requires j < |configs|
  {
    forall k :: j < k < |configs| ==> OverrideModule(configs[k]) != OverrideModule(configs[j])
  }

  /** `m` maps the module `item` names to the level `item` names. */
  ghost predicate OverrideHeld(m: map<string, Level>, item: string, parseLoglevel: string -> Level)
  {
    OverrideModule(item) in m && m[OverrideModule(item)] == OverrideLevel(item, parseLoglevel)
  }

  /** Each item that no later item overrides has its module mapped to its own level. */
  ghost predicate LastOverrideWins(m: map<string, Level>, configs: seq<string>, parseLoglevel: string -> Level)
  {
    forall j :: 0 <= j < |configs| && LastForModule(configs, j) ==> OverrideHeld(m, configs[j], parseLoglevel)
  }

  /** A parse succeeds exactly when every item is valid. */
  lemma {:induction false} OverridesOk(acc: map<string, Level>, configs: seq<string>, value: string,
                                       parseLoglevel: string -> Level)
    ensures Overrides(acc, configs, value, parseLoglevel).Ok? <==>
            forall i :: 0 <= i < |configs| ==> ValidOverride(configs[i], parseLoglevel)
    decreases |configs|
  {
    if configs != [] && ValidOverride(configs[0], parseLoglevel) {
      var acc1 := acc[OverrideModule(configs[0]) := OverrideLevel(configs[0], parseLoglevel)];
      OverridesOk(acc1, configs[1..], value, parseLoglevel);
      assert forall i :: 1 <= i < |configs| ==> configs[i] == configs[1..][i - 1];
    }
  }

  /** A failed parse reports the error of its first invalid item. */
  lemma {:induction false} OverridesFirstError(acc: map<string, Level>, configs: seq<string>, value: string,
                                               parseLoglevel: string -> Level)
    ensures var r := Overrides(acc, configs, value, parseLoglevel);
            r.Err? ==> exists i :: 0 <= i < |configs| &&
                                   (forall k :: 0 <= k < i ==> ValidOverride(configs[k], parseLoglevel)) &&
                                   !ValidOverride(configs[i], parseLoglevel) && r.error == OverrideError(configs[i], value)
    decreases |configs|
  {
    if configs != [] && ValidOverride(configs[0], parseLoglevel) {
      var acc1 := acc[OverrideModule(configs[0]) := OverrideLevel(configs[0], parseLoglevel)];
      OverridesFirstError(acc1, configs[1..], value, parseLoglevel);
      var r := Overrides(acc1, configs[1..], value, parseLoglevel);
      if r.Err? {
        var i :| 0 <= i < |configs[1..]| &&
                 (forall k :: 0 <= k < i ==> ValidOverride(configs[1..][k], parseLoglevel)) &&
                 !ValidOverride(configs[1..][i], parseLoglevel) && r.error == OverrideError(configs[1..][i], value);
        assert configs[i + 1] == configs[1..][i];
        forall k | 0 <= k < i + 1 ensures ValidOverride(configs[k], parseLoglevel) {
          if k > 0 {
            assert configs[k] == configs[1..][k - 1];
          }
        }
      }
    }
  }

  /**
   * A successful parse maps every item's module, and only those and the
   * modules already in `acc`, each to a real level when `acc` holds only real levels.
   */
  lemma {:induction false} OverridesKeys(acc: map<string, Level>, configs: seq<string>, value: string,
                                         parseLoglevel: string -> Level)
    requires forall m :: m in acc ==> acc[m] != Level.NONE
    ensures var r := Overrides(acc, configs, value, parseLoglevel);
            r.Ok? ==>
              (forall i :: 0 <= i < |configs| ==> OverrideModule(configs[i]) in r.value) &&
              (forall m :: m in r.value ==>
                 r.value[m] != Level.NONE &&
                 (m in acc || exists i :: 0 <= i < |configs| && OverrideModule(configs[i]) == m))
    decreases |configs|
  {
    if configs != [] && ValidOverride(configs[0], parseLoglevel) {
      var acc1 := acc[OverrideModule(configs[0]) := OverrideLevel(configs[0], parseLoglevel)];
      OverridesKeys(acc1, configs[1..], value, parseLoglevel);
      var r := Overrides(acc1, configs[1..], value, parseLoglevel);
      if r.Ok? {
        assert forall i :: 1 <= i < |configs| ==> configs[i] == configs[1..][i - 1];
        forall m | m in r.value
          ensures m in acc || exists i :: 0 <= i < |configs| && OverrideModule(configs[i]) == m
        {
          if m !in acc && m != OverrideModule(configs[0]) {
            var i :| 0 <= i < |configs[1..]| && OverrideModule(configs[1..][i]) == m;
            assert configs[i + 1] == configs[1..][i];
          }
        }
        OverridesKept(acc1, configs[1..], value, parseLoglevel, OverrideModule(configs[0]));
      }
    }
  }

  /** A module in `acc` keeps its level, or gets a later item's. */
  lemma {:induction false} OverridesKept(acc: map<string, Level>, configs: seq<string>, value: string,
                                         parseLoglevel: string -> Level, m: string)
    requires m in acc
    ensures var r := Overrides(acc, configs, value, parseLoglevel);
            r.Ok? ==> m in r.value &&
                      ((forall i :: 0 <= i < |configs| ==> OverrideModule(configs[i]) != m) ==> r.value[m] == acc[m])
    decreases |configs|
  {
    if configs != [] && ValidOverride(configs[0], parseLoglevel) {
      var acc1 := acc[OverrideModule(configs[0]) := OverrideLevel(configs[0], parseLoglevel)];
      OverridesKept(acc1, configs[1..], value, parseLoglevel, m);
      assert forall i :: 0 <= i < |configs[1..]| ==> configs[1..][i] == configs[i + 1];
    }
  }

  /** Of several items for one module, the last one's level is kept. */
  lemma {:induction false} OverridesLastWins(acc: map<string, Level>, configs: seq<string>, value: string,
                                             parseLoglevel: string -> Level)
    ensures var r := Overrides(acc, configs, value, parseLoglevel);
            r.Ok? ==> LastOverrideWins(r.value, configs, parseLoglevel)
    decreases |configs|
  {
    if configs != [] && ValidOverride(configs[0], parseLoglevel) {
      var key := OverrideModule(configs[0]);
      var acc1 := acc[key := OverrideLevel(configs[0], parseLoglevel)];
      var rest := configs[1..];
      OverridesLastWins(acc1, rest, value, parseLoglevel);
      OverridesKept(acc1, rest, value, parseLoglevel, key);
      var r := Overrides(acc1, rest, value, parseLoglevel);
      if r.Ok? {
        LastOverrideWinsCons(r.value, configs, parseLoglevel);
      }
    }
  }

  /** The first item wins over the rest when it is the last for its module or the rest already keeps its level. */
  lemma LastOverrideWinsCons(m: map<string, Level>, configs: seq<string>, parseLoglevel: string -> Level)
    requires configs != [] && LastOverrideWins(m, configs[1..], parseLoglevel)
    requires (forall i :: 0 <= i < |configs[1..]| ==> OverrideModule(configs[1..][i]) != OverrideModule(configs[0])) ==>
             OverrideHeld(m, configs[0], parseLoglevel)
    ensures LastOverrideWins(m, configs, parseLoglevel)
  {
    var rest := configs[1..];
    forall j | 0 <= j < |configs| && LastForModule(configs, j)
      ensures OverrideHeld(m, configs[j], parseLoglevel)
    {
      if j == 0 {
        forall i | 0 <= i < |rest| ensures OverrideModule(rest[i]) != OverrideModule(configs[0]) {
          assert rest[i] == configs[i + 1];
        }
      } else {
        assert configs[j] == rest[j - 1];
        forall k | j - 1 < k < |rest| ensures OverrideModule(rest[k]) != OverrideModule(rest[j - 1]) {
          assert rest[k] == configs[k + 1];
        }
        assert LastForModule(rest, j - 1);
      }
    }
  }

  /**
   * The loglevel-overrides parser: empty items are skipped; an item that is
   * not `module:level` is a format error, and a level parseLoglevel does not
   * know (NONE) is a level error. The first invalid item decides the error;
   * on success each module maps to the level of the last item naming it.
   */
  method ParseLoglevelOverrides(value: string, parseLoglevel: string -> Level)
    returns (r: Result<map<string, Level>, ParseError>)
    ensures var configs := Text.SplitNonEmpty(value, ',');
            (r.Ok? <==> forall i :: 0 <= i < |configs| ==> ValidOverride(configs[i], parseLoglevel)) &&
            (r.Ok? ==> forall m :: m in r.value ==>
                         (r.value[m] != Level.NONE &&
                          exists i :: 0 <= i < |configs| && OverrideModule(configs[i]) == m)) &&
            (r.Ok? ==> forall i :: 0 <= i < |configs| ==> OverrideModule(configs[i]) in r.value) &&
            (r.Ok? ==> LastOverrideWins(r.value, configs, parseLoglevel)) &&
            (r.Err? ==> exists i :: 0 <= i < |configs| &&
                                   (forall k :: 0 <= k < i ==> ValidOverride(configs[k], parseLoglevel)) &&
                                   !ValidOverride(configs[i], parseLoglevel) && r.error == OverrideError(configs[i], value))
  {
    var configs := Text.SplitNonEmpty(value, ',');
    r := ParseOverrideItems(configs, value, parseLoglevel);
    OverridesOk(map[], configs, value, parseLoglevel);
    OverridesFirstError(map[], configs, value, parseLoglevel);
    OverridesKeys(map[], configs, value, parseLoglevel);
    OverridesLastWins(map[], configs, value, parseLoglevel);
  }

  /** The loop of the loglevel-overrides parser over the non-empty items. */
  method ParseOverrideItems(configs: seq<string>, value: string, parseLoglevel: string -> Level)
    returns (r: Result<map<string, Level>, ParseError>)
    ensures r == Overrides(map[], configs, value, parseLoglevel)
  {
    var loglevels: map<string, Level> := map[];
    for i := 0 to |configs|
      invariant Overrides(loglevels, configs[i..], value, parseLoglevel) == Overrides(map[], configs, value, parseLoglevel)
    {
      assert configs[i..][1..] == configs[i + 1..];
      var items := Text.Split(configs[i], ':');
      if |items| != 2 {
        return Err(InvalidLoglevelOverrides(value));
      }
      var level := parseLoglevel(items[1]);
      if level == Level.NONE {
        return Err(InvalidLoglevelOverridesLevel(value));
      }
      loglevels := loglevels[items[0] := level];
    }
    assert configs[|configs|..] == [];
    r := Ok(loglevels);
  }

  /** command-conn-limit must be positive. */
  function ValidateCommandConnLimit(x: int): (r: Option<ParseError>)
    ensures r.None? <==> x > 0
    ensures r.Some? ==> r.value == NotPositive("command-conn-limit")
  {
    if x <= 0 then Some(NotPositive("command-conn-limit")) else None
  }

  /** shutdown-timeout (milliseconds) must be positive. */
  function ValidateShutdownTimeout(ms: int): (r: Option<ParseError>)
    ensures r.None? <==> ms > 0
    ensures r.Some? ==> r.value == NotPositive("shutdown-timeout")
  {
    if ms <= 0 then Some(NotPositive("shutdown-timeout")) else None
  }

  /** fd-limit must not be negative; 0 sets no limit. */
  function ValidateFdLimit(x: int): (r: Option<ParseError>)
    ensures r.None? <==> x >= 0
    ensures r.Some? ==> r.value == Negative("fd-limit")
  {
    if x < 0 then Some(Negative("fd-limit")) else None
  }

  /** num-reserved-fds must not be negative. */
  function ValidateNumReservedFds(x: int): (r: Option<ParseError>)
    ensures r.None? <==> x >= 0
    ensures r.Some? ==> r.value == Negative("reserved-fds")
  {
    if x < 0 then Some(Negative("reserved-fds")) else None
  }

  /** sleep-secs-after-self-registeration must not be negative. */
  function ValidateSleepSecs(secs: int): (r: Option<ParseError>)
    ensures r.None? <==> secs >= 0
    ensures r.Some? ==> r.value == Negative("sleep secs")
  {
    if secs < 0 then Some(Negative("sleep secs")) else None
  }
}
