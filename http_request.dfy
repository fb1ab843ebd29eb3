/**
 * The string handling of the `http` command: choosing the request method from
 * its argument, and turning `--header` arguments into request headers.
 */
module HttpRequest {
  import opened Wrappers
  import opened Strings

  datatype HttpMethod = Get | Post | Put | Patch | Delete | Head | Options | Connect | Trace

  /** The lower-case spelling `MapStringToMethod` matches for each method. */
  function MethodName(m: HttpMethod): (r: string)
    ensures |r| >= 3 && forall i :: 0 <= i < |r| ==> 'a' <= r[i] <= 'z'
  {
    match m
    case Get => "get"
    case Post => "post"
    case Put => "put"
    case Patch => "patch"
    case Delete => "delete"
    case Head => "head"
    case Options => "options"
    case Connect => "connect"
    case Trace => "trace"
  }

  /** The exceptions the modelled code throws. */
  datatype RequestError =
    | ArgumentOutOfRange  // an unknown method name
    | IndexOutOfRange     // a header without a ':'
    | HeaderRejected      // `request.Headers.Add` refused the name or the value

  /** The `switch` on the normalised name. */
  function Lookup(key: string): (r: Result<HttpMethod, RequestError>)
    ensures r.Ok? ==> MethodName(r.value) == key
    ensures r.Err? ==> r.error == ArgumentOutOfRange
  {
    if key == "get" then Ok(Get)
    else if key == "post" then Ok(Post)
    else if key == "put" then Ok(Put)
    else if key == "patch" then Ok(Patch)
    else if key == "delete" then Ok(Delete)
    else if key == "head" then Ok(Head)
    else if key == "options" then Ok(Options)
    else if key == "connect" then Ok(Connect)
    else if key == "trace" then Ok(Trace)
    else Err(ArgumentOutOfRange)
  }

  /** `MapStringToMethod`: lower-case, trim, then look the name up. */
  function MapStringToMethod(name: string): (r: Result<HttpMethod, RequestError>)
    ensures r.Ok? ==> MethodName(r.value) == Trim(Lower(name))
    ensures r.Err? ==> r.error == ArgumentOutOfRange
  {
    Lookup(Trim(Lower(name)))
  }

  /** Looking up a method's own name finds that method. */
  lemma LookupName(m: HttpMethod)
    ensures Lookup(MethodName(m)) == Ok(m)
  {
  }

  /** Different methods have different names. */
  lemma MethodNameInjective(m: HttpMethod, n: HttpMethod)
    ensures MethodName(m) == MethodName(n) ==> m == n
  {
  }

  /** A method name is already lower-case and has no surrounding white space. */
  lemma MethodNameNormal(m: HttpMethod)
    ensures Trim(Lower(MethodName(m))) == MethodName(m)
  {
    LowerCaseWord(MethodName(m));
  }

  /** A word of lower-case ASCII letters is unchanged by `ToLower().Trim()`. */
  lemma LowerCaseWord(s: string)
    requires s != [] && forall i :: 0 <= i < |s| ==> 'a' <= s[i] <= 'z'
    ensures Trim(Lower(s)) == s
  {
    LowerUnchanged(s);
    TrimByUnpadded(s, IsWhiteSpace);
  }

  /** Each method's own name maps back to it. */
  lemma MapStringToMethodName(m: HttpMethod)
    ensures MapStringToMethod(MethodName(m)) == Ok(m)
  {
    MethodNameNormal(m);
    LookupName(m);
  }

  /** Exactly the nine names succeed; anything else is an out-of-range error, never a default method. */
  lemma MapStringToMethodDomain(name: string)
    ensures MapStringToMethod(name).Ok? <==> exists m :: MethodName(m) == Trim(Lower(name))
    ensures MapStringToMethod(name).Err? ==> MapStringToMethod(name) == Err(ArgumentOutOfRange)
  {
    var key := Trim(Lower(name));
    if m :| MethodName(m) == key {
      LookupName(m);
    }
  }

  /** Letter case and surrounding white space do not change the method. */
  lemma MapStringToMethodIgnoresPaddingAndCase(pre: string, name: string, post: string)
    requires AllSatisfy(pre, IsWhiteSpace) && AllSatisfy(post, IsWhiteSpace)
    ensures MapStringToMethod(pre + name + post) == MapStringToMethod(name)
    ensures MapStringToMethod(Lower(name)) == MapStringToMethod(name)
  {
    TrimLowerIgnoresPadding(pre, name, post);
    LowerIdempotent(name);
  }

  lemma LowerGeT()
    ensures Lower("GeT") == "get"
  {
    var l := Lower("GeT");
    assert l[0] == 'g' && l[1] == 'e' && l[2] == 't';
  }

  /** ` GeT ` is a GET request. */
  lemma MapStringToMethodExample()
    ensures MapStringToMethod(" GeT ") == Ok(Get)
  {
    assert " GeT " == " " + "GeT" + " ";
    MapStringToMethodIgnoresPaddingAndCase(" ", "GeT", " ");
    LowerGeT();
    MapStringToMethodName(Get);
  }

  // ---------------------------------------------------------------------------
  // Headers
  // ---------------------------------------------------------------------------

  /**
   * One `--header` argument: `Split(':')`, then the trimmed first piece is the name and the
   * trimmed second piece the value; without a second piece, indexing it throws.
   */
  function ParseHeader(header: string): (r: Result<(string, string), RequestError>)
    ensures r.Err? ==> r.error == IndexOutOfRange
  {
    var parts := Split(header, ':');
    if |parts| < 2 then Err(IndexOutOfRange) else Ok((Trim(parts[0]), Trim(parts[1])))
  }

  /** Parsing fails exactly when the header has no ':'. */
  lemma ParseHeaderFails(header: string)
    ensures ParseHeader(header).Err? <==> ':' !in header
  {
    SplitPieces(header, ':');
    SplitCount(header, ':');
  }

  /**
   * The name is the trimmed text before the first ':', the value the trimmed text between
   * the first and the second ':'; whatever follows a second ':' is dropped.
   */
  lemma ParseHeaderFields(name: string, value: string, rest: seq<string>)
    requires ':' !in name && ':' !in value
    requires forall i :: 0 <= i < |rest| ==> ':' !in rest[i]
    ensures ParseHeader(Join([name, value] + rest, ':')) == Ok((Trim(name), Trim(value)))
  {
    var parts := [name, value] + rest;
    forall i | 0 <= i < |parts| ensures ':' !in parts[i] {
      if i >= 2 {
        assert parts[i] == rest[i - 2];
      }
    }
    SplitJoin(parts, ':');
  }

  /** `Referer: http://example` keeps only `http` as its value. */
  lemma ParseHeaderDropsAfterSecondColon(value: string)
    requires ':' !in value
    ensures ParseHeader("Referer: http:" + value) == Ok(("Referer", "http"))
  {
    var parts := ["Referer", " http"] + [value];
    assert parts[1..][1..] == [value];
    assert Join(parts[1..], ':') == " http" + [':'] + value;
    assert "Referer: http:" + value == Join(parts, ':');
    ParseHeaderFields("Referer", " http", [value]);
    TrimByUnpadded("Referer", IsWhiteSpace);
    assert " http" == " " + "http" + "";
    TrimIgnoresPadding(" ", "http", "");
    TrimByUnpadded("http", IsWhiteSpace);
  }

  /** What parsing one header gives: its (name, value) pair, or the exception. */
  type Parsed = Result<(string, string), RequestError>

  /** Every header argument parsed, in order. */
  function ParseAll(headers: seq<string>): (ps: seq<Parsed>)
    ensures |ps| == |headers|
  {
    if headers == [] then [] else ParseAll(headers[..|headers| - 1]) + [ParseHeader(headers[|headers| - 1])]
  }

  /** The `i`-th parse result is the parse of the `i`-th header. */
  lemma {:induction false} ParseAllAt(headers: seq<string>, i: nat)
    requires i < |headers|
    ensures ParseAll(headers)[i] == ParseHeader(headers[i])
  {
    if i < |headers| - 1 {
      var init := headers[..|headers| - 1];
      ParseAllAt(init, i);
      assert init[i] == headers[i];
    }
  }

  /** A (name, value) pair in the request's headers. */
  type Header = (string, string)

  /**
   * A header the loop adds: it parsed, and the header collection, holding the headers `added`
   * before it, takes it. `accepts(added, name, value)` stands for the validation of
   * `HttpHeaders.Add`, which looks at the name, the value and what is already there (a second
   * value for a single-value header such as `Host` is refused).
   */
  predicate Accepted(p: Parsed, added: seq<Header>, accepts: (seq<Header>, string, string) -> bool) {
    p.Ok? && accepts(added, p.value.0, p.value.1)
  }

  /** The exception a header that is not added throws. */
  function Rejection(p: Parsed, added: seq<Header>, accepts: (seq<Header>, string, string) -> bool): RequestError
    requires !Accepted(p, added, accepts)
  {
    if p.Err? then p.error else HeaderRejected
  }

  /** A header is rejected for its missing ':' exactly when it has none; otherwise `Headers.Add` refused it. */
  lemma RejectionCause(header: string, added: seq<Header>, accepts: (seq<Header>, string, string) -> bool)
    requires !Accepted(ParseHeader(header), added, accepts)
    ensures Rejection(ParseHeader(header), added, accepts) == IndexOutOfRange <==> ':' !in header
    ensures Rejection(ParseHeader(header), added, accepts) == HeaderRejected <==> ':' in header
  {
    ParseHeaderFails(header);
  }

  /** The (name, value) entries of accepted headers, one per header and in order. */
  function Entries(ps: seq<Parsed>): (entries: seq<(string, string)>)
    requires forall i :: 0 <= i < |ps| ==> ps[i].Ok?
    ensures |entries| == |ps|
    ensures forall i :: 0 <= i < |ps| ==> entries[i] == ps[i].value
  {
    if ps == [] then [] else Entries(ps[..|ps| - 1]) + [ps[|ps| - 1].value]
  }

  lemma EntriesStep(ps: seq<Parsed>, i: nat)
    requires i < |ps| && forall j :: 0 <= j <= i ==> ps[j].Ok?
    ensures Entries(ps[..i + 1]) == Entries(ps[..i]) + [ps[i].value]
  {
    assert ps[..i + 1][..i] == ps[..i];
  }
  /**
   * From header `i` on, how far the loop gets: the index of the first header that throws,
   * given that headers `0..i-1` were added after `added`; `|ps|` when none throws.
   */
  function AcceptedFrom(added: seq<Header>, ps: seq<Parsed>, accepts: (seq<Header>, string, string) -> bool, i: nat): (k: nat)
    requires i <= |ps|
    requires forall j :: 0 <= j < i ==> ps[j].Ok?
    ensures i <= k <= |ps|
    ensures forall j :: 0 <= j < k ==> ps[j].Ok?
    ensures forall j :: i <= j < k ==> Accepted(ps[j], added + Entries(ps[..j]), accepts)
    ensures k < |ps| ==> !Accepted(ps[k], added + Entries(ps[..k]), accepts)
    decreases |ps| - i
  {
    if i == |ps| || !Accepted(ps[i], added + Entries(ps[..i]), accepts) then i
    else AcceptedFrom(added, ps, accepts, i + 1)
  }

  /**
   * How many headers, from the start, are added before the first one that throws: each is
   * accepted given `added` and the headers before it, and the one at the boundary is not.
   */
  function AcceptedPrefix(added: seq<Header>, ps: seq<Parsed>, accepts: (seq<Header>, string, string) -> bool): (k: nat)
    ensures k <= |ps|
    ensures forall j :: 0 <= j < k ==> ps[j].Ok?
    ensures forall j :: 0 <= j < k ==> Accepted(ps[j], added + Entries(ps[..j]), accepts)
    ensures k < |ps| ==> !Accepted(ps[k], added + Entries(ps[..k]), accepts)
  {
    AcceptedFrom(added, ps, accepts, 0)
  }



  /**
   * The header loop from header `i` on, with `entries` already added: each header that parses
   * and is accepted is appended; the first that throws ends the run with its exception.
   */
  function RunFrom(entries: seq<Header>, ps: seq<Parsed>, accepts: (seq<Header>, string, string) -> bool, i: nat):
    (r: (seq<Header>, Option<RequestError>))
    requires i <= |ps|
    decreases |ps| - i
  {
    if i == |ps| then (entries, None)
    else if !Accepted(ps[i], entries, accepts) then (entries, Some(Rejection(ps[i], entries, accepts)))
    else RunFrom(entries + [ps[i].value], ps, accepts, i + 1)
  }

  /** From header `i` on, the run adds the headers up to the first that throws, and reports that one. */
  lemma {:induction false} RunFromPrefix(added: seq<Header>, ps: seq<Parsed>, accepts: (seq<Header>, string, string) -> bool, i: nat)
    requires i <= |ps|
    requires forall j :: 0 <= j < i ==> ps[j].Ok?
    ensures var k := AcceptedFrom(added, ps, accepts, i);
      RunFrom(added + Entries(ps[..i]), ps, accepts, i) ==
        (added + Entries(ps[..k]),
         if k == |ps| then None else Some(Rejection(ps[k], added + Entries(ps[..k]), accepts)))
    decreases |ps| - i
  {
    if i < |ps| && Accepted(ps[i], added + Entries(ps[..i]), accepts) {
      EntriesStep(ps, i);
      assert added + Entries(ps[..i]) + [ps[i].value] == added + Entries(ps[..i + 1]);
      RunFromPrefix(added, ps, accepts, i + 1);
    }
  }

  /**
   * The whole run: the headers before the first one that throws are added, in order, after
   * the ones already there, and that header's exception is the result; no exception when
   * every header is added.
   */
  lemma HeaderRun(added: seq<Header>, ps: seq<Parsed>, accepts: (seq<Header>, string, string) -> bool)
    ensures var k := AcceptedPrefix(added, ps, accepts);
      RunFrom(added, ps, accepts, 0) ==
        (added + Entries(ps[..k]),
         if k == |ps| then None else Some(Rejection(ps[k], added + Entries(ps[..k]), accepts)))
  {
    assert added + Entries(ps[..0]) == added;
    RunFromPrefix(added, ps, accepts, 0);
  }

  /** `request.Headers`: the added (name, value) pairs, in the order they were added. */
  class RequestHeaders {
    var entries: seq<Header>

    constructor ()
      ensures entries == []
    {
      entries := [];
    }

    /** `Headers.Add(name, value)`: either appends the pair or throws and changes nothing. */
    method Add(name: string, value: string, accepts: (seq<Header>, string, string) -> bool) returns (ok: bool)
      modifies this
      ensures ok == accepts(old(entries), name, value)
      ensures entries == if ok then old(entries) + [(name, value)] else old(entries)
    {
      ok := accepts(entries, name, value);
      if ok {
        entries := entries + [(name, value)];
      }
    }
  }

  /** One pass of the header loop: split and trim the header, then add it. */
  method AddHeader(header: string, request: RequestHeaders, accepts: (seq<Header>, string, string) -> bool)
    returns (failure: Option<RequestError>)
    modifies request
    ensures var p := ParseHeader(header);
      var added := old(request.entries);
      && failure == (if Accepted(p, added, accepts) then None else Some(Rejection(p, added, accepts)))
      && request.entries == if Accepted(p, added, accepts) then added + [p.value] else added
  {
    var values := Split(header, ':');
    if |values| < 2 {
      return Some(IndexOutOfRange);
    }
    var ok := request.Add(Trim(values[0]), Trim(values[1]), accepts);
    failure := if ok then None else Some(HeaderRejected);
  }

  /**
   * The header loop: when there are headers, parse and add each in array order, stopping at
   * the first one that throws (the headers before it stay added).
   */
  method AddHeaders(headers: Option<seq<string>>, request: RequestHeaders, accepts: (seq<Header>, string, string) -> bool)
    returns (failure: Option<RequestError>)
    modifies request
    ensures headers.None? ==> failure.None? && request.entries == old(request.entries)
    ensures headers.Some? ==>
      (request.entries, failure) == RunFrom(old(request.entries), ParseAll(headers.value), accepts, 0)
  {
    failure := None;
    if headers.Some? && |headers.value| > 0 {
      var all := headers.value;
      ghost var ps := ParseAll(all);
      ghost var run := RunFrom(request.entries, ps, accepts, 0);
      var i := 0;
      while i < |all|
        invariant 0 <= i <= |all|
        invariant RunFrom(request.entries, ps, accepts, i) == run
      {
        var failed := AddHeader(all[i], request, accepts);
        ParseAllAt(all, i);
        if failed.Some? {
          return failed;
        }
        i := i + 1;
      }
    }
  }

  /** The (name, value) pairs of `name:value` headers, trimmed. */
  function TrimmedPairs(names: seq<string>, values: seq<string>): seq<Header>
    requires |names| == |values|
  {
    seq(|names|, i requires 0 <= i < |names| => (Trim(names[i]), Trim(values[i])))
  }

  /** `name:value` headers without further ':' parse to their trimmed pairs. */
  lemma ParsedPairs(names: seq<string>, values: seq<string>, headers: seq<string>)
    requires |names| == |values| == |headers|
    requires forall i :: 0 <= i < |names| ==> ':' !in names[i] && ':' !in values[i]
    requires forall i :: 0 <= i < |names| ==> headers[i] == names[i] + ":" + values[i]
    ensures forall i :: 0 <= i < |names| ==> ParseAll(headers)[i] == Ok(TrimmedPairs(names, values)[i])
  {
    forall i | 0 <= i < |names|
      ensures ParseAll(headers)[i] == Ok(TrimmedPairs(names, values)[i])
    {
      ParseAllAt(headers, i);
      assert headers[i] == Join([names[i], values[i]] + [], ':');
      ParseHeaderFields(names[i], values[i], []);
    }
  }

  /** Parse results that all succeed have their pairs as entries, prefix by prefix. */
  lemma EntriesOfPairs(ps: seq<Parsed>, pairs: seq<Header>, j: nat)
    requires |ps| == |pairs| && j <= |ps|
    requires forall i :: 0 <= i < |ps| ==> ps[i] == Ok(pairs[i])
    ensures Entries(ps[..j]) == pairs[..j]
  {
  }

  /** Parse results that all succeed, each accepted next to the pairs before it, are all added. */
  lemma AllAccepted(ps: seq<Parsed>, pairs: seq<Header>, accepts: (seq<Header>, string, string) -> bool)
    requires |ps| == |pairs|
    requires forall i :: 0 <= i < |ps| ==> ps[i] == Ok(pairs[i])
    requires forall i :: 0 <= i < |pairs| ==> accepts(pairs[..i], pairs[i].0, pairs[i].1)
    ensures AcceptedPrefix([], ps, accepts) == |ps|
    ensures RunFrom([], ps, accepts, 0) == (pairs, None)
  {
    var k := AcceptedPrefix([], ps, accepts);
    EntriesOfPairs(ps, pairs, k);
    assert [] + Entries(ps[..k]) == pairs[..k];
    EntriesOfPairs(ps, pairs, |ps|);
    assert ps[..|ps|] == ps && pairs[..|ps|] == pairs;
    HeaderRun([], ps, accepts);
  }

  /**
   * Well-formed `name:value` headers, each accepted next to the ones before it, are all added,
   * and become exactly their trimmed pairs, in order, with no exception.
   */
  lemma AddedEntries(names: seq<string>, values: seq<string>, headers: seq<string>,
                     accepts: (seq<Header>, string, string) -> bool)
    requires |names| == |values| == |headers|
    requires forall i :: 0 <= i < |names| ==> ':' !in names[i] && ':' !in values[i]
    requires forall i :: 0 <= i < |names| ==> headers[i] == names[i] + ":" + values[i]
    requires forall i :: 0 <= i < |names| ==>
      accepts(TrimmedPairs(names, values)[..i], Trim(names[i]), Trim(values[i]))
    ensures AcceptedPrefix([], ParseAll(headers), accepts) == |headers|
    ensures RunFrom([], ParseAll(headers), accepts, 0) == (TrimmedPairs(names, values), None)
  {
    var pairs := TrimmedPairs(names, values);
    ParsedPairs(names, values, headers);
    assert forall i :: 0 <= i < |pairs| ==> accepts(pairs[..i], pairs[i].0, pairs[i].1);
    AllAccepted(ParseAll(headers), pairs, accepts);
  }

  /**
   * A second `Host` header is refused once one is there: the loop keeps the first and stops at
   * the second, reporting the refusal.
   */
  lemma SecondHostRefused(first: string, second: string, accepts: (seq<Header>, string, string) -> bool)
    requires accepts([], "Host", first)
    requires !accepts([("Host", first)], "Host", second)
    ensures var ps: seq<Parsed> := [Ok(("Host", first)), Ok(("Host", second))];
      && AcceptedPrefix([], ps, accepts) == 1
      && Entries(ps[..1]) == [("Host", first)]
  {
    var ps: seq<Parsed> := [Ok(("Host", first)), Ok(("Host", second))];
    assert Entries(ps[..1]) == [("Host", first)];
    assert Entries(ps[..0]) == [];
    assert Accepted(ps[0], [] + Entries(ps[..0]), accepts);
    assert !Accepted(ps[1], [] + Entries(ps[..1]), accepts);
  }
}
