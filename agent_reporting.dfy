/**
 * `BundlerApi::AgentReporting` (lib/bundler_api/agent_reporting.rb): a
 * Rack middleware that turns a Bundler user agent into one meter mark per
 * reported key and then hands the request on unchanged.
 *
 * Matching the agent against `UA_REGEX` and the Redis lookup of
 * `known_id?` are not modelled: their results enter as values.
 */
module AgentReporting {
  import opened Wrappers
  import opened Strings

  /** The named captures of a successful `UA_REGEX` match; `options` and `ci` are optional groups. */
  datatype UaMatch = UaMatch(
    bundlerVersion: string,
    gemVersion: string,
    rubyVersion: string,
    arch: string,
    command: string,
    options: Option<string>,
    ci: Option<string>,
    id: string)

  /** Librato's limit on the length of a metric name. */
  const MaxMetricLength := 255

  /** The five keys every matched agent reports, in this order. */
  function BaseKeys(m: UaMatch): seq<string> {
    [ "versions.bundler." + m.bundlerVersion,
      "versions.rubygems." + m.gemVersion,
      "versions.ruby." + m.rubyVersion,
      "archs." + m.arch,
      "commands." + m.command ]
  }

  /** `list.split(",").map { |k| prefix + k }`, or nothing for an absent group. */
  function ListKeys(prefix: string, list: Option<string>): seq<string> {
    var parts := GroupParts(list);
    seq(|parts|, i requires 0 <= i < |parts| => prefix + parts[i])
  }

  /** The comma-separated parts of a group, none for an absent group. */
  function GroupParts(list: Option<string>): seq<string> {
    if list.Some? then Split(list.value, ",") else []
  }

  /** The key list of `report_user_agent`: base keys, then option keys, then ci keys. */
  function Keys(m: UaMatch): seq<string> {
    BaseKeys(m) + ListKeys("options.", m.options) + ListKeys("cis.", m.ci)
  }

  /** The characters a metric name may hold: `.:_-`, digits and ASCII letters. */
  predicate Allowed(c: char) {
    c == '.' || c == ':' || c == '_' || c == '-' || ('0' <= c <= '9') || ('a' <= c <= 'z') || ('A' <= c <= 'Z')
  }

  /** `gsub!(/[^.:_\-0-9a-zA-Z]/, '.')`. */
  function Sanitize(s: string): (r: string)
    ensures |r| == |s|
    ensures forall i :: 0 <= i < |s| && Allowed(s[i]) ==> r[i] == s[i]
    ensures forall i :: 0 <= i < |s| && !Allowed(s[i]) ==> r[i] == '.'
    ensures forall i :: 0 <= i < |r| ==> Allowed(r[i])
  {
    seq(|s|, i requires 0 <= i < |s| => if Allowed(s[i]) then s[i] else '.')
  }

  /** Sanitising twice is sanitising once. */
  lemma SanitizeIdempotent(s: string)
    ensures Sanitize(Sanitize(s)) == Sanitize(s)
  {
  }

  /** A key made only of allowed characters is reported as it is. */
  lemma SanitizeKeepsAllowed(s: string)
    requires forall i :: 0 <= i < |s| ==> Allowed(s[i])
    ensures Sanitize(s) == s
  {
  }

  /** `metric[0...255]` of the sanitised key. */
  function MeterName(key: string): (r: string)
    ensures |r| == if |key| < MaxMetricLength then |key| else MaxMetricLength
    ensures r <= Sanitize(key)
    ensures forall i :: 0 <= i < |r| ==> Allowed(r[i])
  {
    var metric := Sanitize(key);
    if |metric| <= MaxMetricLength then metric else metric[..MaxMetricLength]
  }

  /** The meters `report_user_agent` marks, in order: none for an unmatched agent or a known id. */
  function ReportedMeters(ua: Option<UaMatch>, known: bool): (r: seq<string>)
    ensures ua.None? || known ==> r == []
    ensures ua.Some? && !known ==>
      |r| == |Keys(ua.value)| && forall i :: 0 <= i < |r| ==> r[i] == MeterName(Keys(ua.value)[i])
  {
    if ua.None? || known then []
    else
      var keys := Keys(ua.value);
      seq(|keys|, i requires 0 <= i < |keys| => MeterName(keys[i]))
  }

  /** Every reported meter name is at most 255 characters long and uses only allowed characters. */
  lemma ReportedMetersAreMetricNames(ua: Option<UaMatch>, known: bool)
    ensures forall i :: 0 <= i < |ReportedMeters(ua, known)| ==>
      |ReportedMeters(ua, known)[i]| <= MaxMetricLength && AllAllowed(ReportedMeters(ua, known)[i])
  {
    forall i | 0 <= i < |ReportedMeters(ua, known)|
      ensures |ReportedMeters(ua, known)[i]| <= MaxMetricLength && AllAllowed(ReportedMeters(ua, known)[i])
    {
      var keys := Keys(ua.value);
      assert ReportedMeters(ua, known)[i] == MeterName(keys[i]);
    }
  }

  /**
   * The key list in order: the five base keys, then one `options.` key per
   * comma-separated option, then one `cis.` key per comma-separated ci.
   */
  lemma KeysInOrder(m: UaMatch)
    ensures |Keys(m)| == 5 + |GroupParts(m.options)| + |GroupParts(m.ci)|
    ensures Keys(m)[..5] == BaseKeys(m)
    ensures forall i :: 0 <= i < |GroupParts(m.options)| ==>
      Keys(m)[5 + i] == "options." + GroupParts(m.options)[i]
    ensures forall i :: 0 <= i < |GroupParts(m.ci)| ==>
      Keys(m)[5 + |GroupParts(m.options)| + i] == "cis." + GroupParts(m.ci)[i]
  {
    ListKeysSpelled("options.", m.options);
    ListKeysSpelled("cis.", m.ci);
    ThreeParts(BaseKeys(m), "options.", GroupParts(m.options), "cis.", GroupParts(m.ci));
  }

  /** Where the pieces of the key list sit: the base, then each prefixed part of the two groups. */
  lemma ThreeParts(b: seq<string>, po: string, os: seq<string>, pc: string, cs: seq<string>)
    ensures var o := seq(|os|, i requires 0 <= i < |os| => po + os[i]);
      var c := seq(|cs|, i requires 0 <= i < |cs| => pc + cs[i]);
      && |b + o + c| == |b| + |os| + |cs|
      && (b + o + c)[..|b|] == b
      && (forall i :: 0 <= i < |os| ==> (b + o + c)[|b| + i] == po + os[i])
      && (forall i :: 0 <= i < |cs| ==> (b + o + c)[|b| + |os| + i] == pc + cs[i])
  {
  }

  /** One key per part of the group, each the part behind the prefix. */
  lemma ListKeysSpelled(prefix: string, list: Option<string>)
    ensures |ListKeys(prefix, list)| == |GroupParts(list)|
    ensures forall i :: 0 <= i < |GroupParts(list)| ==>
      ListKeys(prefix, list)[i] == prefix + GroupParts(list)[i]
  {
  }

  /** The sample agent `bundler/1.7.3 rubygems/2.4.1 ruby/2.1.2 (x86_64-apple-darwin13.2.0) command/update 9d16bd9809d392ca`. */
  function SampleMatch(): UaMatch {
    UaMatch("1.7.3", "2.4.1", "2.1.2", "x86_64-apple-darwin13.2.0", "update", None, None, "9d16bd9809d392ca")
  }

  /** The sample agent, with an unknown id, marks exactly its five base keys, unchanged. */
  lemma SampleAgentReports()
    ensures ReportedMeters(Some(SampleMatch()), false) == BaseKeys(SampleMatch())
  {
    var m := SampleMatch();
    var keys := BaseKeys(m);
    assert Keys(m) == keys;
    assert AllAllowed("versions.bundler.") && AllAllowed("versions.rubygems.") && AllAllowed("versions.ruby.");
    assert AllAllowed("archs.") && AllAllowed("commands.");
    SamplePartsAllowed();
    AllowedConcat("versions.bundler.", m.bundlerVersion);
    AllowedConcat("versions.rubygems.", m.gemVersion);
    AllowedConcat("versions.ruby.", m.rubyVersion);
    AllowedConcat("archs.", m.arch);
    AllowedConcat("commands.", m.command);
    forall i | 0 <= i < |keys| ensures MeterName(keys[i]) == keys[i] {
      SanitizeKeepsAllowed(keys[i]);
    }
  }

  /** The sample's keys, spelled out as the middleware's tests expect them. */
  lemma SampleKeysSpelled()
    ensures BaseKeys(SampleMatch()) == ["versions.bundler.1.7.3", "versions.rubygems.2.4.1", "versions.ruby.2.1.2",
                                        "archs.x86_64-apple-darwin13.2.0", "commands.update"]
  {
    assert "versions.bundler." + "1.7.3" == "versions.bundler.1.7.3";
    assert "versions.rubygems." + "2.4.1" == "versions.rubygems.2.4.1";
    assert "versions.ruby." + "2.1.2" == "versions.ruby.2.1.2";
    assert "archs." + "x86_64-apple-darwin13.2.0" == "archs.x86_64-apple-darwin13.2.0";
    assert "commands." + "update" == "commands.update";
  }

  ghost predicate AllAllowed(s: string) {
    forall i :: 0 <= i < |s| ==> Allowed(s[i])
  }

  lemma AllowedConcat(a: string, b: string)
    requires AllAllowed(a) && AllAllowed(b)
    ensures AllAllowed(a + b)
  {
    assert forall i :: |a| <= i < |a + b| ==> (a + b)[i] == b[i - |a|];
  }

  /** The sample agent's fields use only allowed characters. */
  lemma SamplePartsAllowed()
    ensures var m := SampleMatch();
      AllAllowed(m.bundlerVersion) && AllAllowed(m.gemVersion) && AllAllowed(m.rubyVersion)
      && AllAllowed(m.arch) && AllAllowed(m.command)
  {
  }

  /** The meters for the first `i + 1` keys extend those for the first `i` by the meter of key `i`. */
  lemma MetersOfKeys(m: UaMatch, i: nat)
    ensures |ReportedMeters(Some(m), false)| == |Keys(m)|
    ensures i < |Keys(m)| ==>
      ReportedMeters(Some(m), false)[..i + 1] == ReportedMeters(Some(m), false)[..i] + [MeterName(Keys(m)[i])]
  {
    var keys := Keys(m);
    var meters := ReportedMeters(Some(m), false);
    if i < |keys| {
      TakeOneMore(meters, i);
      assert meters[i] == MeterName(keys[i]);
    }
  }

  /** A prefix one element longer is the prefix followed by that element. */
  lemma TakeOneMore(s: seq<string>, i: nat)
    requires i < |s|
    ensures s[..i + 1] == s[..i] + [s[i]]
  {
  }

  /** Where marked meters go: `Metriks.meter(name).mark`, as a log of names. */
  class MeterLog {
    var marked: seq<string>

    constructor ()
      ensures marked == []
    {
      marked := [];
    }

    method Mark(name: string)
      modifies this
      ensures marked == old(marked) + [name]
    {
      marked := marked + [name];
    }
  }

  /** `report_user_agent`, with the match and the `known_id?` answer given. */
  method ReportUserAgent(log: MeterLog, ua: Option<UaMatch>, known: bool)
    modifies log
    ensures log.marked == old(log.marked) + ReportedMeters(ua, known)
  {
    if ua.None? || known {
      return;
    }
    var keys := Keys(ua.value);
    ghost var start := log.marked;
    ghost var meters := ReportedMeters(ua, known);
    MetersOfKeys(ua.value, 0);
    for i := 0 to |keys|
      invariant log.marked == start + meters[..i]
    {
      var metric := MeterName(keys[i]);
      MetersOfKeys(ua.value, i);
      log.Mark(metric);
    }
    assert meters[..|keys|] == meters;
  }

  /** `call(env)`: report, then forward `env` to the wrapped app and return its answer unchanged. */
  method Call<Env, Response>(log: MeterLog, app: Env -> Response, env: Env, ua: Option<UaMatch>, known: bool)
    returns (response: Response)
    modifies log
    ensures response == app(env)
    ensures log.marked == old(log.marked) + ReportedMeters(ua, known)
  {
    ReportUserAgent(log, ua, known);
    response := app(env);
  }
}
