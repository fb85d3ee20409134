// Local zone lookup and the bounded CNAME chase.
module LocalZones {
  import opened Wire
  import opened Names
  import opened Messages
  import opened Text
  import opened Responses
  import opened RdataMeaning
  import opened BuilderMeaning

  const MAX_CNAME_DEPTH := 8

  /** The text {{FORWARD}}. */
  const FORWARD: bytes := [0x7B, 0x7B, 0x46, 0x4F, 0x52, 0x57, 0x41, 0x52, 0x44, 0x7D, 0x7D]

  const APEX: bytes := [0x40]

  /** The two-character key \* that stands for any subdomain. */
  const WILDCARD: bytes := [0x5C, 0x2A]

  /** The records of one type, in key order. */
  type Records = seq<(bytes, Json)>

  /** A zone; types whose value is not an object are left out of the map. */
  type Zone = map<string, Records>

  /** Regular expression matching of a subdomain against a key. */
  type Matcher = (bytes, bytes) -> bool

  function ValueAt(rs: Records, key: bytes): Option<Json> {
    if rs == [] then None
    else if rs[0].0 == key then Some(rs[0].1)
    else ValueAt(rs[1..], key)
  }

  function FirstMatch(rs: Records, sub: bytes, matches: Matcher): Option<Json> {
    if rs == [] then None
    else if matches(sub, rs[0].0) then Some(rs[0].1)
    else FirstMatch(rs[1..], sub, matches)
  }

  /** A value, unless it says to forward the query. */
  function Unforwarded(value: Option<Json>): Option<Json> {
    match value
    case Some(Str(s)) => if s == FORWARD then None else value
    case _ => value
  }

  function LookupRecords(rs: Records, sub: bytes, matches: Matcher): Option<Json> {
    if sub == [] then Unforwarded(ValueAt(rs, APEX))
    else
      var found := FirstMatch(rs, sub, matches);
      if found.Some? then Unforwarded(found) else Unforwarded(ValueAt(rs, WILDCARD))
  }

  /** The subdomain is all but the last two parts; no dot is put before the first non-empty one. */
  function SubDomain(parts: seq<bytes>, sub: bytes): bytes {
    if |parts| <= 2 then sub
    else SubDomain(parts[1..], (if sub == [] then [] else sub + [DOT]) + parts[0])
  }

  function LocalRecord(zones: map<bytes, Zone>, domain: bytes, rtype: string, matches: Matcher): Option<Json> {
    var d := if |domain| > 0 && domain[|domain| - 1] == DOT then domain[..|domain| - 1] else domain;
    if rtype == "" || d == [] then None
    else
      var parts := Split(d, DOT);
      if |parts| < 2 then None
      else
        var root := parts[|parts| - 2] + [DOT] + parts[|parts| - 1];
        if root !in zones || rtype !in zones[root] then None
        else LookupRecords(zones[root][rtype], SubDomain(parts, []), matches)
  }

  lemma SubDomainStep(parts: seq<bytes>, i: nat, sub: bytes)
    requires i + 2 < |parts|
    ensures SubDomain(parts[i..], sub) == SubDomain(parts[i + 1..], (if sub == [] then [] else sub + [DOT]) + parts[i])
  {
    assert parts[i..][1..] == parts[i + 1..];
  }

  lemma SubDomainEnds(parts: seq<bytes>, sub: bytes)
    requires |parts| <= 2
    ensures SubDomain(parts, sub) == sub
  {
  }

  /** The root domain is the last two parts; the rest is the subdomain. */
  method SplitDomain(domain: bytes) returns (ok: bool, root: bytes, sub: bytes)
    ensures var parts := Split(domain, DOT);
            && ok == (|parts| >= 2)
            && (ok ==> root == parts[|parts| - 2] + [DOT] + parts[|parts| - 1] && sub == SubDomain(parts, []))
  {
    hide Split, SubDomain;
    ok, root, sub := false, [], [];
    var parts := SplitText(domain, DOT);
    if |parts| < 2 {
      return;
    }
    assert parts[0..] == parts;
    for index := 0 to |parts| - 2
      invariant SubDomain(parts, []) == SubDomain(parts[index..], sub)
    {
      SubDomainStep(parts, index, sub);
      if sub != [] {
        sub := sub + [DOT];
      }
      sub := sub + parts[index];
    }
    SubDomainEnds(parts[|parts| - 2..], sub);
    return true, parts[|parts| - 2] + [DOT] + parts[|parts| - 1], sub;
  }

  /** The regex loop over the records, in key order. */
  method MatchSubDomain(rs: Records, sub: bytes, matches: Matcher) returns (found: Option<Json>)
    ensures found == FirstMatch(rs, sub, matches)
  {
    assert rs[0..] == rs;
    for i := 0 to |rs|
      invariant FirstMatch(rs, sub, matches) == FirstMatch(rs[i..], sub, matches)
    {
      assert rs[i..][1..] == rs[i + 1..];
      if matches(sub, rs[i].0) {
        return Some(rs[i].1);
      }
    }
    return None;
  }

  predicate FirstWithKey(rs: Records, key: bytes, k: nat) {
    k < |rs| && rs[k].0 == key && forall j :: 0 <= j < k ==> rs[j].0 != key
  }

  predicate FirstThatMatches(rs: Records, sub: bytes, matches: Matcher, k: nat) {
    k < |rs| && matches(sub, rs[k].0) && forall j :: 0 <= j < k ==> !matches(sub, rs[j].0)
  }

  /** The record that answers for a subdomain: the apex, else the first match, else the wildcard. */
  predicate Answers(rs: Records, sub: bytes, matches: Matcher, k: nat) {
    if sub == [] then FirstWithKey(rs, APEX, k)
    else if exists j :: 0 <= j < |rs| && matches(sub, rs[j].0) then FirstThatMatches(rs, sub, matches, k)
    else FirstWithKey(rs, WILDCARD, k)
  }

  /** `r` is the value of the record that answers, or nothing if there is none or it says to forward. */
  ghost predicate IsAnswer(r: Option<Json>, rs: Records, sub: bytes, matches: Matcher) {
    if r.Some? then r.value != Str(FORWARD) && exists k: nat :: Answers(rs, sub, matches, k) && rs[k].1 == r.value
    else forall k: nat :: Answers(rs, sub, matches, k) ==> rs[k].1 == Str(FORWARD)
  }

  /** A lookup finds the value of the record that answers, unless there is none or it says to forward. */
  lemma LookupMeaning(rs: Records, sub: bytes, matches: Matcher)
    ensures IsAnswer(LookupRecords(rs, sub, matches), rs, sub, matches)
  {
    hide ValueAt, FirstMatch;
    var key := if sub == [] then APEX else WILDCARD;
    FirstMatchMeaning(rs, sub, matches);
    ValueAtMeaning(rs, key);
    if sub != [] && FirstMatch(rs, sub, matches).Some? {
      var k: nat :| FirstThatMatches(rs, sub, matches, k) && rs[k].1 == FirstMatch(rs, sub, matches).value;
      assert Answers(rs, sub, matches, k);
    } else if ValueAt(rs, key).Some? {
      var k: nat :| FirstWithKey(rs, key, k) && rs[k].1 == ValueAt(rs, key).value;
      assert Answers(rs, sub, matches, k);
    }
  }

  lemma {:induction false} FirstMatchMeaning(rs: Records, sub: bytes, matches: Matcher)
    ensures var r := FirstMatch(rs, sub, matches);
            if r.None? then forall j :: 0 <= j < |rs| ==> !matches(sub, rs[j].0)
            else exists k: nat :: FirstThatMatches(rs, sub, matches, k) && rs[k].1 == r.value
  {
    if rs != [] {
      var rest := rs[1..];
      assert rs == [rs[0]] + rest;
      if matches(sub, rs[0].0) {
        assert FirstThatMatches(rs, sub, matches, 0);
      } else {
        FirstMatchMeaning(rest, sub, matches);
        if FirstMatch(rest, sub, matches).Some? {
          var k: nat :| FirstThatMatches(rest, sub, matches, k) && rest[k].1 == FirstMatch(rest, sub, matches).value;
          assert FirstThatMatches(rs, sub, matches, k + 1);
        }
      }
    }
  }

  lemma {:induction false} ValueAtMeaning(rs: Records, key: bytes)
    ensures var r := ValueAt(rs, key);
            if r.None? then forall j :: 0 <= j < |rs| ==> rs[j].0 != key
            else exists k: nat :: FirstWithKey(rs, key, k) && rs[k].1 == r.value
  {
    if rs != [] {
      var rest := rs[1..];
      assert rs == [rs[0]] + rest;
      if rs[0].0 == key {
        assert FirstWithKey(rs, key, 0);
      } else {
        ValueAtMeaning(rest, key);
        if ValueAt(rest, key).Some? {
          var k: nat :| FirstWithKey(rest, key, k) && rest[k].1 == ValueAt(rest, key).value;
          assert FirstWithKey(rs, key, k + 1);
        }
      }
    }
  }

  /** Parts without the empty ones at the front. */
  function Trimmed(parts: seq<bytes>): seq<bytes> {
    if parts != [] && parts[0] == [] then Trimmed(parts[1..]) else parts
  }

  lemma {:induction false} SubDomainBehind(parts: seq<bytes>, sub: bytes)
    requires |parts| >= 2 && sub != []
    ensures SubDomain(parts, sub) == Join([sub] + parts[..|parts| - 2], DOT)
    decreases |parts|
  {
    var front := parts[..|parts| - 2];
    if |parts| == 2 {
      assert [sub] + front == [sub];
    } else {
      SubDomainBehind(parts[1..], sub + [DOT] + parts[0]);
      var rest := parts[1..][..|parts| - 3];
      assert front == [parts[0]] + rest;
      JoinTwo(sub, parts[0], rest);
      assert [sub] + front == [sub, parts[0]] + rest;
    }
  }

  lemma JoinTwo(a: bytes, b: bytes, rest: seq<bytes>)
    ensures Join([a, b] + rest, DOT) == Join([a + [DOT] + b] + rest, DOT)
  {
    var x, y := [a, b] + rest, [a + [DOT] + b] + rest;
    assert x[1..] == [b] + rest && y[1..] == rest && ([b] + rest)[1..] == rest;
    if rest != [] {
      assert a + [DOT] + (b + [DOT] + Join(rest, DOT)) == (a + [DOT] + b) + [DOT] + Join(rest, DOT);
    }
  }

  /** The subdomain is everything before the last two parts. */
  lemma {:induction false} SubDomainExactly(parts: seq<bytes>)
    requires |parts| >= 2
    ensures SubDomain(parts, []) == Join(Trimmed(parts[..|parts| - 2]), DOT)
    decreases |parts|
  {
    var front := parts[..|parts| - 2];
    if |parts| > 2 {
      var rest := parts[1..][..|parts| - 3];
      assert front == [parts[0]] + rest && front[1..] == rest;
      assert [] + parts[0] == parts[0];
      if parts[0] == [] {
        SubDomainExactly(parts[1..]);
      } else {
        SubDomainBehind(parts[1..], parts[0]);
      }
    }
  }

  lemma {:induction false} JoinEnd(parts: seq<bytes>)
    requires parts != [] && parts[|parts| - 1] != [] && DOT !in parts[|parts| - 1]
    ensures Join(parts, DOT) != [] && Join(parts, DOT)[|Join(parts, DOT)| - 1] != DOT
  {
    if |parts| == 1 {
      assert parts[0][|parts[0]| - 1] in parts[0];
    } else {
      JoinEnd(parts[1..]);
    }
  }

  /**
   * A lookup on the dotted name of `parts`, with or without a trailing dot: the last two parts name
   * the zone, and the ones before them the subdomain whose record of the given type answers.
   */
  lemma LocalRecordMeaning(zones: map<bytes, Zone>, domain: bytes, parts: seq<bytes>, rtype: string, matches: Matcher)
    requires parts != [] && forall k :: 0 <= k < |parts| ==> DOT !in parts[k]
    requires domain == Join(parts, DOT) + [DOT] || (domain == Join(parts, DOT) && parts[|parts| - 1] != [])
    ensures var r := LocalRecord(zones, domain, rtype, matches);
            if rtype == "" || |parts| < 2 then r == None
            else
              var n := |parts|;
              var root := parts[n - 2] + [DOT] + parts[n - 1];
              if root !in zones || rtype !in zones[root] then r == None
              else IsAnswer(r, zones[root][rtype], Join(Trimmed(parts[..n - 2]), DOT), matches)
  {
    hide Split, Join, SubDomain, LookupRecords, IsAnswer, Trimmed;
    var d := Join(parts, DOT);
    assert (d + [DOT])[..|d|] == d;
    if domain == d {
      JoinEnd(parts);
    }
    SplitJoin(parts, DOT);
    if |parts| >= 2 {
      var n := |parts|;
      var root := parts[n - 2] + [DOT] + parts[n - 1];
      SubDomainExactly(parts);
      assert d != [] by { JoinOfMany(parts); }
      if root in zones && rtype in zones[root] {
        LookupMeaning(zones[root][rtype], SubDomain(parts, []), matches);
      }
    }
  }

  lemma JoinOfMany(parts: seq<bytes>)
    requires |parts| >= 2
    ensures Join(parts, DOT) != []
  {
  }

  /** With labels that are not empty, nothing is trimmed. */
  lemma NothingTrimmed(parts: seq<bytes>)
    requires forall k :: 0 <= k < |parts| ==> parts[k] != []
    ensures Trimmed(parts) == parts
  {
  }

  /** The empty name and the root name are never looked up. */
  lemma NoNameNoRecord(zones: map<bytes, Zone>, rtype: string, matches: Matcher)
    ensures LocalRecord(zones, [], rtype, matches) == None && LocalRecord(zones, [DOT], rtype, matches) == None
  {
  }

  method LookupLocalRecord(zones: map<bytes, Zone>, domain: bytes, rtype: string, matches: Matcher) returns (data: Option<Json>)
    ensures data == LocalRecord(zones, domain, rtype, matches)
  {
    hide Split, SubDomain, ValueAt, FirstMatch;
    if domain == [] || rtype == "" {
      return None;
    }
    var name := if domain[|domain| - 1] == DOT then domain[..|domain| - 1] else domain;
    if name == [] {
      return None;
    }
    var ok, root, sub := SplitDomain(name);
    if !ok || root !in zones || rtype !in zones[root] {
      return None;
    }
    var records := zones[root][rtype];
    if sub == [] {
      return Unforwarded(ValueAt(records, APEX));
    }
    var found := MatchSubDomain(records, sub, matches);
    if found.Some? {
      return Unforwarded(found);
    }
    return Unforwarded(ValueAt(records, WILDCARD));
  }

  // ---------------------------------------------------------------------
  // The chase.

  /** One answer per element of a list value, or one for any other value. */
  function Expand(rtype: string, data: Json, name: bytes): (r: seq<AnswerRecord>)
    ensures forall k :: 0 <= k < |r| ==> r[k].rtype == rtype && r[k].name == name
    ensures r == if data.Arr? then seq(|data.items|, k requires 0 <= k < |data.items| => AnswerRecord(rtype, data.items[k], name))
                 else [AnswerRecord(rtype, data, name)]
  {
    if data.Arr? then seq(|data.items|, k requires 0 <= k < |data.items| => AnswerRecord(rtype, data.items[k], name))
    else [AnswerRecord(rtype, data, name)]
  }

  /** CNAME answers, each owned by the target of the one before and found by looking that target up. */
  predicate IsChain(zones: map<bytes, Zone>, chain: seq<AnswerRecord>, first: Json, matches: Matcher) {
    && |chain| > 0 && chain[0] == AnswerRecord("CNAME", first, [])
    && (forall k :: 0 <= k < |chain| ==> chain[k].rtype == "CNAME" && chain[k].data.Str?)
    && (forall k {:trigger chain[k]} :: 0 < k < |chain| ==>
          && chain[k].name == chain[k - 1].data.s
          && LocalRecord(zones, chain[k - 1].data.s, "CNAME", matches) == Some(chain[k].data))
  }

  function LastTarget(chain: seq<AnswerRecord>): bytes
    requires |chain| > 0 && chain[|chain| - 1].data.Str?
  {
    chain[|chain| - 1].data.s
  }

  /** The records of the queried type that close the chain, if it ended in time. */
  function Closing(zones: map<bytes, Zone>, chain: seq<AnswerRecord>, rtype: string, matches: Matcher): seq<AnswerRecord>
    requires |chain| > 0 && chain[|chain| - 1].data.Str?
  {
    if |chain| > MAX_CNAME_DEPTH || rtype == "*" then []
    else
      match LocalRecord(zones, LastTarget(chain), rtype, matches)
      case None => []
      case Some(data) => Expand(rtype, data, LastTarget(chain))
  }

  /** The answers are a chain that was followed as far as allowed, and what closes it. */
  predicate IsChase(zones: map<bytes, Zone>, answers: seq<AnswerRecord>, n: nat, first: Json, rtype: string, matches: Matcher) {
    && n <= |answers| && 1 <= n <= MAX_CNAME_DEPTH + 1
    && IsChain(zones, answers[..n], first, matches)
    && (n <= MAX_CNAME_DEPTH ==> LocalRecord(zones, LastTarget(answers[..n]), "CNAME", matches).None?)
    && answers[n..] == Closing(zones, answers[..n], rtype, matches)
  }

  /** Every CNAME value of the zones is a single string. */
  ghost predicate SingleTargets(zones: map<bytes, Zone>, matches: Matcher) {
    forall domain :: LocalRecord(zones, domain, "CNAME", matches).Some? ==>
      LocalRecord(zones, domain, "CNAME", matches).value.Str?
  }

  /** The last target has a CNAME record that is no string. */
  predicate LeadsAstray(zones: map<bytes, Zone>, chain: seq<AnswerRecord>, matches: Matcher) {
    && |chain| > 0 && chain[|chain| - 1].data.Str?
    && var data := LocalRecord(zones, LastTarget(chain), "CNAME", matches);
    data.Some? && !data.value.Str?
  }

  lemma ExtendChain(zones: map<bytes, Zone>, chain: seq<AnswerRecord>, first: Json, data: Json, matches: Matcher)
    requires IsChain(zones, chain, first, matches) && data.Str?
    requires LocalRecord(zones, LastTarget(chain), "CNAME", matches) == Some(data)
    ensures IsChain(zones, chain + [AnswerRecord("CNAME", data, LastTarget(chain))], first, matches)
  {
    hide LocalRecord;
  }

  /**
   * The CNAME part of CheckLocalMatch. A target that is not a string raises a JSON exception,
   * which `ok` reports. `n` is the number of CNAME answers.
   */
  method ChaseCname(zones: map<bytes, Zone>, first: Json, rtype: string, matches: Matcher)
    returns (ok: bool, answers: seq<AnswerRecord>, n: nat)
    ensures ok ==> IsChase(zones, answers, n, first, rtype, matches)
    ensures first.Str? && SingleTargets(zones, matches) ==> ok
    ensures !ok ==> !first.Str? || exists chain :: IsChain(zones, chain, first, matches) && |chain| <= 8 && LeadsAstray(zones, chain, matches)
  {
    hide LocalRecord, Closing;
    answers, n := [], 0;
    if !first.Str? {
      return false, answers, n;
    }
    var current := first.s;
    answers, n := [AnswerRecord("CNAME", first, [])], 1;
    for depth := 0 to MAX_CNAME_DEPTH
      invariant n == |answers| == depth + 1
      invariant IsChain(zones, answers, first, matches) && current == LastTarget(answers)
    {
      var chained := LookupLocalRecord(zones, current, "CNAME", matches);
      if chained.Some? {
        if !chained.value.Str? {
          assert LeadsAstray(zones, answers, matches);
          return false, answers, n;
        }
        ExtendChain(zones, answers, first, chained.value, matches);
        answers := answers + [AnswerRecord("CNAME", chained.value, current)];
        current, n := chained.value.s, n + 1;
        continue;
      }
      ghost var chain := answers;
      if rtype != "*" {
        var resolved := LookupLocalRecord(zones, current, rtype, matches);
        if resolved.Some? {
          answers := answers + Expand(rtype, resolved.value, current);
        }
      }
      assert answers[..n] == chain;
      ClosingIs(zones, chain, rtype, matches, answers[n..]);
      return true, answers, n;
    }
    assert answers[..n] == answers;
    ClosingIs(zones, answers, rtype, matches, answers[n..]);
    return true, answers, n;
  }

  lemma ClosingIs(zones: map<bytes, Zone>, chain: seq<AnswerRecord>, rtype: string, matches: Matcher, rest: seq<AnswerRecord>)
    requires |chain| > 0 && chain[|chain| - 1].data.Str?
    requires |chain| > MAX_CNAME_DEPTH || rtype == "*" ==> rest == []
    requires |chain| <= MAX_CNAME_DEPTH && rtype != "*" ==>
               var data := LocalRecord(zones, LastTarget(chain), rtype, matches);
               rest == if data.Some? then Expand(rtype, data.value, LastTarget(chain)) else []
    ensures rest == Closing(zones, chain, rtype, matches)
  {
    hide LocalRecord;
  }

  /** The chase has only one outcome, so IsChase says everything about it. */
  lemma ChaseIsUnique(zones: map<bytes, Zone>, x: seq<AnswerRecord>, n: nat, y: seq<AnswerRecord>, m: nat, first: Json, rtype: string, matches: Matcher)
    requires IsChase(zones, x, n, first, rtype, matches) && IsChase(zones, y, m, first, rtype, matches)
    ensures x == y && n == m
  {
    hide LocalRecord, Closing, IsChain;
    ChasesEndTogether(zones, x, n, y, m, first, rtype, matches);
    ChasesEndTogether(zones, y, m, x, n, first, rtype, matches);
    ChainsAgree(zones, x[..n], y[..m], n, first, matches);
    assert x[..n][..n] == x[..n] && y[..m][..m] == y[..m];
    assert x == x[..n] + x[n..] && y == y[..m] + y[m..];
  }

  /** A chase cannot stop where another one goes on. */
  lemma ChasesEndTogether(zones: map<bytes, Zone>, x: seq<AnswerRecord>, n: nat, y: seq<AnswerRecord>, m: nat, first: Json, rtype: string, matches: Matcher)
    requires IsChase(zones, x, n, first, rtype, matches) && IsChase(zones, y, m, first, rtype, matches)
    ensures n >= m
  {
    hide LocalRecord, Closing;
    if n < m {
      ChainsAgree(zones, x[..n], y[..m], n, first, matches);
      assert x[..n][..n] == x[..n];
      ChainGoesOn(zones, y[..m], n, first, matches);
    }
  }

  lemma ChainGoesOn(zones: map<bytes, Zone>, chain: seq<AnswerRecord>, n: nat, first: Json, matches: Matcher)
    requires IsChain(zones, chain, first, matches) && 1 <= n < |chain|
    ensures LocalRecord(zones, LastTarget(chain[..n]), "CNAME", matches).Some?
  {
    hide LocalRecord;
    ChainLink(zones, chain, n, first, matches);
  }

  lemma ChainLink(zones: map<bytes, Zone>, chain: seq<AnswerRecord>, k: nat, first: Json, matches: Matcher)
    requires IsChain(zones, chain, first, matches) && k < |chain|
    ensures chain[k].rtype == "CNAME" && chain[k].data.Str?
    ensures k == 0 ==> chain[k] == AnswerRecord("CNAME", first, [])
    ensures k > 0 ==> chain[k - 1].data.Str? && chain[k].name == chain[k - 1].data.s
                      && LocalRecord(zones, chain[k - 1].data.s, "CNAME", matches) == Some(chain[k].data)
  {
    hide LocalRecord;
    assert chain[k] == chain[k];
  }

  lemma {:induction false} ChainsAgree(zones: map<bytes, Zone>, x: seq<AnswerRecord>, y: seq<AnswerRecord>, k: nat, first: Json, matches: Matcher)
    requires IsChain(zones, x, first, matches) && IsChain(zones, y, first, matches) && 1 <= k <= |x| && k <= |y|
    ensures x[..k] == y[..k]
    decreases k
  {
    hide LocalRecord, IsChain;
    ChainLink(zones, x, k - 1, first, matches);
    ChainLink(zones, y, k - 1, first, matches);
    if k > 1 {
      ChainsAgree(zones, x, y, k - 1, first, matches);
      assert x[k - 2] == x[..k - 1][k - 2] && y[..k - 1][k - 2] == y[k - 2];
    }
    assert x[..k] == x[..k - 1] + [x[k - 1]] && y[..k] == y[..k - 1] + [y[k - 1]];
  }

  // ---------------------------------------------------------------------
  // The chain on the wire.

  lemma NameWireIsPrinted(s: bytes)
    requires NameWire(s).Some?
    ensures NameWire(s).value == PrintName(TextLabels(s))
  {
    hide PrintName;
    NameWireIsLabels(s);
  }

  /**
   * What a client sees of a chase: CNAME records that start at the question's name, each owned by
   * the name in the RDATA of the one before, and then records owned by the last such name.
   */
  lemma ChaseOnTheWire(request: Header, questions: seq<Question>, zones: map<bytes, Zone>, answers: seq<AnswerRecord>, n: nat,
                       first: Json, rtype: string, matches: Matcher, ttl: u32)
    requires IsChase(zones, answers, n, first, rtype, matches)
    requires MultiAnswerWire(request, questions, answers, ttl).Some?
    ensures questions != []
    ensures var parsed := ParseResponse(MultiAnswerWire(request, questions, answers, ttl).value);
            && parsed.Some? && |parsed.value.packet.answers| == |answers| && 1 <= n <= |answers| && n <= 9
            && var rs := parsed.value.packet.answers;
            && rs[0].name == questions[0].qname
            && (forall k :: 0 <= k < n ==> rs[k].rtype == TYPE_CNAME)
            && (forall k :: 0 < k < n ==> PrintName(rs[k].name) == rs[k - 1].rdata)
            && (forall k :: n <= k < |rs| ==> PrintName(rs[k].name) == rs[n - 1].rdata)
  {
    hide LocalRecord, ParseResponse, MultiAnswerWire, PrintName, NameWire, TextLabels, RdataOf, HeaderFree, IsChase, ZoneAnswer;
    MultiAnswerMeaning(request, questions, answers, ttl);
    ChaseOwners(zones, answers, n, first, rtype, matches);
    var q := questions[0];
    CnameOnTheWire(answers[0], answers[0], q, ttl);
    forall k | 0 <= k < n ensures ZoneAnswer(answers[k], q, ttl).rtype == TYPE_CNAME {
      CnameOnTheWire(answers[k], answers[k], q, ttl);
    }
    forall k | 0 < k < n ensures PrintName(ZoneAnswer(answers[k], q, ttl).name) == ZoneAnswer(answers[k - 1], q, ttl).rdata {
      CnameOnTheWire(answers[k - 1], answers[k], q, ttl);
    }
    forall k | n <= k < |answers| ensures PrintName(ZoneAnswer(answers[k], q, ttl).name) == ZoneAnswer(answers[n - 1], q, ttl).rdata {
      CnameOnTheWire(answers[n - 1], answers[k], q, ttl);
    }
  }

  lemma ChaseOwners(zones: map<bytes, Zone>, answers: seq<AnswerRecord>, n: nat, first: Json, rtype: string, matches: Matcher)
    requires IsChase(zones, answers, n, first, rtype, matches)
    ensures 1 <= n <= |answers| && n <= MAX_CNAME_DEPTH + 1
    ensures forall k :: 0 <= k < n ==> answers[k].rtype == "CNAME" && answers[k].data.Str?
    ensures answers[0].name == []
    ensures forall k {:trigger answers[k]} :: 0 < k < n ==> answers[k].name == answers[k - 1].data.s
    ensures forall k :: n <= k < |answers| ==> answers[k].name == answers[n - 1].data.s
  {
    hide LocalRecord, IsChain;
    var chain := answers[..n];
    ChainLink(zones, chain, 0, first, matches);
    assert chain[0] == answers[0];
    forall k | 0 <= k < n ensures answers[k].rtype == "CNAME" && answers[k].data.Str? {
      ChainLink(zones, chain, k, first, matches);
      assert chain[k] == answers[k];
    }
    forall k {:trigger answers[k]} | 0 < k < n ensures answers[k].name == answers[k - 1].data.s {
      ChainLink(zones, chain, k, first, matches);
      assert chain[k] == answers[k] && chain[k - 1] == answers[k - 1];
    }
    forall k | n <= k < |answers| ensures answers[k].name == answers[n - 1].data.s {
      assert answers[n..][k - n] == answers[k] && chain[n - 1] == answers[n - 1];
    }
  }

  lemma CnameOnTheWire(r: AnswerRecord, next: AnswerRecord, q: Question, ttl: u32)
    requires r.rtype == "CNAME" && r.data.Str? && RdataOf(r.rtype, r.data).Some?
    requires RdataOf(next.rtype, next.data).Some?
    ensures ZoneAnswer(r, q, ttl).rtype == TYPE_CNAME
    ensures r.name == [] ==> ZoneAnswer(r, q, ttl).name == q.qname
    ensures next.name == r.data.s ==> PrintName(ZoneAnswer(next, q, ttl).name) == ZoneAnswer(r, q, ttl).rdata
  {
    hide PrintName, NameWire, TextLabels;
    NameWireIsPrinted(r.data.s);
  }
}
