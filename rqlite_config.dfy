/**
 * The "rqlite" section of the cluster configuration (RqliteConfig): the quorum
 * of server addresses, the scheme of the `rqlite_uri` property and the quorum
 * string after its "://".
 */
module RqliteConfig {
  import opened Wrappers
  import opened Errors
  import opened Json
  import Text

  /** Longest cluster name the stores accept. */
  const MAX_CLUSTER_NAME: nat := 127

  /** The scheme of an ip-based quorum specification. */
  const URI_SCHEME_IP: string := "ip"

  const URI_PROPERTY: string := "rqlite_uri"

  const URI_DELIMITER: string := "://"

  /** A socket address; how one is rendered (`toStringNoBrackets`) is a parameter. */
  datatype Sockaddr = Sockaddr(host: string, port: nat)

  datatype Config = Config(quorum: seq<Sockaddr>, uriScheme: string, quorumString: string)

  /** Each address rendered. */
  function Rendered(quorum: seq<Sockaddr>, render: Sockaddr -> string): (parts: seq<string>)
    ensures |parts| == |quorum| && forall i :: 0 <= i < |quorum| ==> parts[i] == render(quorum[i])
  {
    seq(|quorum|, i requires 0 <= i < |quorum| => render(quorum[i]))
  }

  /**
   * The quorum string built one address at a time: a comma goes before an
   * address whenever the text so far is not empty.
   */
  function QuorumString(quorum: seq<Sockaddr>, render: Sockaddr -> string): string
  {
    if quorum == [] then []
    else
      var sofar := QuorumString(quorum[..|quorum| - 1], render);
      (if sofar == [] then [] else sofar + [',']) + render(quorum[|quorum| - 1])
  }

  /** makeQuorumString. */
  method MakeQuorumString(quorum: seq<Sockaddr>, render: Sockaddr -> string) returns (result: string)
    ensures result == QuorumString(quorum, render)
  {
    result := [];
    for i := 0 to |quorum|
      invariant result == QuorumString(quorum[..i], render)
    {
      assert quorum[..i + 1][..i] == quorum[..i];
      if result != [] {
        result := result + [','];
      }
      result := result + render(quorum[i]);
    }
    assert quorum[..|quorum|] == quorum;
  }

  /** The constructor from a quorum: the ip scheme and the quorum string of the addresses. */
  method FromQuorum(quorum: seq<Sockaddr>, render: Sockaddr -> string) returns (c: Config)
    ensures c == Config(quorum, URI_SCHEME_IP, QuorumString(quorum, render))
  {
    var s := MakeQuorumString(quorum, render);
    c := Config(quorum, URI_SCHEME_IP, s);
  }

  predicate RendersNonEmpty(quorum: seq<Sockaddr>, render: Sockaddr -> string)
  {
    forall i :: 0 <= i < |quorum| ==> render(quorum[i]) != []
  }

  /**
   * With every address rendering to some text, the quorum string is the
   * addresses joined by commas: no leading, trailing or doubled comma.
   */
  lemma {:induction false} QuorumStringIsJoin(quorum: seq<Sockaddr>, render: Sockaddr -> string)
    requires RendersNonEmpty(quorum, render)
    ensures QuorumString(quorum, render) == Text.Join(Rendered(quorum, render), ',')
    ensures quorum != [] ==> QuorumString(quorum, render) != []
    decreases |quorum|
  {
    if quorum != [] {
      var n := |quorum| - 1;
      var init := quorum[..n];
      assert RendersNonEmpty(init, render) by {
        forall i | 0 <= i < |init| ensures render(init[i]) != [] {
          assert init[i] == quorum[i];
        }
      }
      QuorumStringIsJoin(init, render);
      assert Rendered(quorum, render) == Rendered(init, render) + [render(quorum[n])];
      Text.JoinSnoc(Rendered(init, render), render(quorum[n]), ',');
      assert render(quorum[n]) != [];
    }
  }

  /** The quorum string splits at its commas back into the rendered addresses. */
  lemma QuorumStringSplits(quorum: seq<Sockaddr>, render: Sockaddr -> string)
    requires quorum != [] && RendersNonEmpty(quorum, render)
    requires forall i :: 0 <= i < |quorum| ==> ',' !in render(quorum[i])
    ensures Text.Split(QuorumString(quorum, render), ',') == Rendered(quorum, render)
  {
    QuorumStringIsJoin(quorum, render);
    Text.SplitJoin(Rendered(quorum, render), ',');
  }

  /** folly::dynamic's `find` on an object: the value of the first member with the key. */
  function Lookup(members: seq<Member>, key: string): (r: Option<Json>)
    ensures r.Some? <==> exists i :: 0 <= i < |members| && members[i].key == key
    ensures r.Some? ==> exists i :: 0 <= i < |members| && members[i] == Member(key, r.value)
  {
    if members == [] then None
    else if members[0].key == key then Some(members[0].value)
    else
      var r := Lookup(members[1..], key);
      assert forall i :: 0 < i < |members| ==> members[i] == members[1..][i - 1];
      r
  }

  /** fromJson: INVALID_CONFIG for everything but an object whose `rqlite_uri` is "<scheme>://<quorum>". */
  function FromJson(parsed: Json): (r: Result<Config, Status>)
    ensures r.Err? ==> r.error == INVALID_CONFIG
    ensures !parsed.JObject? ==> r.Err?
    ensures r.Ok? ==>
              r.value.quorum == [] && r.value.uriScheme != [] && r.value.quorumString != [] &&
              Lookup(parsed.members, URI_PROPERTY) ==
                Some(JString(r.value.uriScheme + URI_DELIMITER + r.value.quorumString)) &&
              Text.Find(r.value.uriScheme + URI_DELIMITER + r.value.quorumString, URI_DELIMITER) ==
                Some(|r.value.uriScheme|)
  {
    if !parsed.JObject? then Err(INVALID_CONFIG)
    else
      var found := Lookup(parsed.members, URI_PROPERTY);
      if found.Some? && !found.value.JString? then Err(INVALID_CONFIG)
      else if found.Some? && Text.Find(found.value.s, URI_DELIMITER).None? then Err(INVALID_CONFIG)
      else
        var (scheme, quorumString) :=
          if found.None? then ([], [])
          else
            var uri := found.value.s;
            var d := Text.Find(uri, URI_DELIMITER).value;
            (uri[..d], uri[d + 3..]);
        if quorumString == [] || scheme == [] then Err(INVALID_CONFIG)
        else
          assert found.value.s == scheme + URI_DELIMITER + quorumString;
          Ok(Config([], scheme, quorumString))
  }

  /** toFollyDynamic: the property `rqlite_uri`, whose value is only the quorum string. */
  function ToJson(c: Config): (j: Json)
    ensures j.JObject? && Lookup(j.members, URI_PROPERTY) == Some(JString(c.quorumString))
  {
    JObject([Member(URI_PROPERTY, JString(c.quorumString))])
  }

  /** operator==: quorum, quorum string and scheme all agree. */
  function Equal(a: Config, b: Config): (r: bool)
    ensures r <==> a == b
  {
    a.quorum == b.quorum && a.quorumString == b.quorumString && a.uriScheme == b.uriScheme
  }

  /** A uri "<scheme>://<quorum>" with a scheme free of ':' parses into that scheme and quorum string. */
  lemma FromJsonParsesUri(scheme: string, quorumString: string)
    requires scheme != [] && quorumString != [] && ':' !in scheme
    ensures FromJson(JObject([Member(URI_PROPERTY, JString(scheme + URI_DELIMITER + quorumString))])) ==
            Ok(Config([], scheme, quorumString))
  {
    var uri := scheme + URI_DELIMITER + quorumString;
    assert Text.OccursAt(uri, URI_DELIMITER, |scheme|) by {
      assert uri[|scheme|..|scheme| + 3] == URI_DELIMITER;
    }
    forall j | 0 <= j < |scheme| ensures !Text.OccursAt(uri, URI_DELIMITER, j) {
      assert uri[j] == scheme[j] != ':';
    }
    var d := Text.Find(uri, URI_DELIMITER).value;
    assert uri[..d] == scheme;
    assert uri[d + 3..] == quorumString;
  }

  /**
   * Writing a configuration out and reading it back does not round trip: the
   * written property carries no scheme, so a quorum string without "://" is
   * rejected when read back.
   */
  lemma ToJsonDropsScheme(c: Config)
    requires Text.Find(c.quorumString, URI_DELIMITER).None?
    ensures FromJson(ToJson(c)) == Err(INVALID_CONFIG)
  {
  }

  /** The configuration the ip constructor builds for one address is not read back from what it writes. */
  lemma IpConfigIsNotReadBack()
    ensures var c := Config([Sockaddr("10.0.0.1", 4001)], URI_SCHEME_IP, "10.0.0.1:4001");
            FromJson(ToJson(c)).Err? &&
            FromJson(JObject([Member(URI_PROPERTY, JString(URI_SCHEME_IP + URI_DELIMITER + c.quorumString))])) ==
              Ok(Config([], URI_SCHEME_IP, c.quorumString))
  {
    var c := Config([Sockaddr("10.0.0.1", 4001)], URI_SCHEME_IP, "10.0.0.1:4001");
    NoDelimiterWithoutSlash(c.quorumString);
    ToJsonDropsScheme(c);
    FromJsonParsesUri(URI_SCHEME_IP, c.quorumString);
  }

  lemma NoDelimiterWithoutSlash(s: string)
    requires '/' !in s
    ensures Text.Find(s, URI_DELIMITER).None?
  {
    forall j | 0 <= j <= |s| ensures !Text.OccursAt(s, URI_DELIMITER, j) {
      if j + 3 <= |s| {
        assert s[j..j + 3][1] == s[j + 1];
      }
    }
  }
}
