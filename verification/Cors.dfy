/** The comma-separated lists of the Access-Control-Allow headers. */
module AllowLists {
  import opened Basics

  predicate IsHttpSpace(c: char) {
    c == ' ' || c == '\n' || c == '\t' || c == '\r'
  }

  predicate IsTokenCharacter(c: char) {
    'a' <= c <= 'z' || 'A' <= c <= 'Z' || '0' <= c <= '9' || c in "!#$%&'*+-.^_`|~"
  }

  predicate IsValidHttpToken(s: string) {
    s != [] && forall i :: 0 <= i < |s| ==> IsTokenCharacter(s[i])
  }

  /** A string without the spaces around it. */
  function Trimmed(s: string): (t: string)
    decreases |s|
  {
    if s != [] && IsHttpSpace(s[0]) then Trimmed(s[1..])
    else if s != [] && IsHttpSpace(s[|s| - 1]) then Trimmed(s[..|s| - 1])
    else s
  }

  lemma Digits(c: char)
    ensures '0' <= c <= '9' <==> c in "0123456789"
  {
    if '0' <= c <= '9' {
      assert "0123456789"[c as int - 0x30] == c;
    }
  }

  lemma Capitals(c: char)
    ensures 'A' <= c <= 'Z' <==> c in "ABCDEFGHIJKLMNOPQRSTUVWXYZ"
  {
    if 'A' <= c <= 'Z' {
      assert "ABCDEFGHIJKLMNOPQRSTUVWXYZ"[c as int - 0x41] == c;
    }
  }

  lemma SmallLetters(c: char)
    ensures 'a' <= c <= 'z' <==> c in "abcdefghijklmnopqrstuvwxyz"
  {
    if 'a' <= c <= 'z' {
      assert "abcdefghijklmnopqrstuvwxyz"[c as int - 0x61] == c;
    }
  }

  /** The characters of a token, section 3.2.6 of RFC 7230. */
  predicate IsTchar(c: char) {
    || c in "!#$%&'*+-.^_`|~" || c in "0123456789"
    || c in "ABCDEFGHIJKLMNOPQRSTUVWXYZ" || c in "abcdefghijklmnopqrstuvwxyz"
  }

  lemma TokenCharacters(c: char)
    ensures IsTokenCharacter(c) <==> IsTchar(c)
  {
    Digits(c);
    Capitals(c);
    SmallLetters(c);
  }

  ghost predicate IsBlank(s: string) {
    forall i :: 0 <= i < |s| ==> IsSpace(s[i])
  }

  /** Spaces, tabs and line ends. */
  predicate IsSpace(c: char) {
    c as int == 0x20 || c as int == 0x09 || c as int == 0x0A || c as int == 0x0D
  }

  /** The part of a string that is left when spaces are taken away at both sides and none is left at either. */
  ghost predicate IsCore(s: string, t: string, i: nat, j: nat) {
    && i <= j <= |s| && t == s[i..j] && IsBlank(s[..i]) && IsBlank(s[j..])
    && (i < j ==> !IsSpace(s[i]) && !IsSpace(s[j - 1]))
  }

  lemma CoreBehindSpace(s: string, t: string, i: nat, j: nat)
    requires s != [] && IsSpace(s[0]) && IsCore(s[1..], t, i, j)
    ensures IsCore(s, t, i + 1, j + 1)
  {
    assert s[i + 1..j + 1] == s[1..][i..j];
    assert s[j + 1..] == s[1..][j..];
    assert s[..i + 1] == [s[0]] + s[1..][..i];
  }

  lemma CoreBeforeSpace(s: string, t: string, i: nat, j: nat)
    requires s != [] && IsSpace(s[|s| - 1]) && IsCore(s[..|s| - 1], t, i, j)
    ensures IsCore(s, t, i, j)
  {
    var first := s[..|s| - 1];
    assert s[i..j] == first[i..j];
    assert s[..i] == first[..i];
    assert s[j..] == first[j..] + [s[|s| - 1]];
  }

  /** Only spaces are taken away, and none is left at either side. */
  lemma {:induction false} TrimmedMeans(s: string) returns (i: nat, j: nat)
    ensures IsCore(s, Trimmed(s), i, j)
    decreases |s|
  {
    hide IsCore;
    if s != [] && IsHttpSpace(s[0]) {
      i, j := TrimmedMeans(s[1..]);
      CoreBehindSpace(s, Trimmed(s), i, j);
      i, j := i + 1, j + 1;
    } else if s != [] && IsHttpSpace(s[|s| - 1]) {
      i, j := TrimmedMeans(s[..|s| - 1]);
      CoreBeforeSpace(s, Trimmed(s), i, j);
    } else {
      i, j := 0, |s|;
      WholeCore(s);
    }
  }

  lemma WholeCore(s: string)
    requires s == [] || (!IsSpace(s[0]) && !IsSpace(s[|s| - 1]))
    ensures IsCore(s, s, 0, |s|)
  {
    assert s[0..|s|] == s;
  }

  /** The index of the first comma at or after `start`, or the length. */
  function NextComma(s: string, start: nat): (i: nat)
    requires start <= |s|
    ensures start <= i <= |s| && (i < |s| ==> s[i] == ',') && ',' !in s[start..i]
    decreases |s| - start
  {
    if start == |s| || s[start] == ',' then start else NextComma(s, start + 1)
  }

  /** The parts between the commas from `start` on. */
  function Parts(s: string, start: nat): (parts: seq<string>)
    requires start <= |s|
    ensures forall part :: part in parts ==> ',' !in part
    decreases |s| - start
  {
    var end := NextComma(s, start);
    if end == |s| then [s[start..]] else [s[start..end]] + Parts(s, end + 1)
  }

  function Joined(parts: seq<string>): string
    requires parts != []
  {
    if |parts| == 1 then parts[0] else parts[0] + "," + Joined(parts[1..])
  }

  /** The parts are what the commas separate: putting the commas back gives the string again. */
  lemma {:induction false} PartsJoin(s: string, start: nat)
    requires start <= |s|
    ensures Parts(s, start) != [] && Joined(Parts(s, start)) == s[start..]
    decreases |s| - start
  {
    var end := NextComma(s, start);
    if end < |s| {
      PartsJoin(s, end + 1);
      assert Parts(s, start)[1..] == Parts(s, end + 1);
      assert s[start..] == s[start..end] + "," + s[end + 1..];
    }
  }

  predicate IsListable(part: string) {
    Trimmed(part) == [] || IsValidHttpToken(Trimmed(part))
  }

  /** A list with one part more: its token joins the list, or makes the whole list invalid. */
  function Listed(list: Option<set<string>>, part: string): Option<set<string>> {
    if list.None? || !IsListable(part) then None
    else if Trimmed(part) == [] then list
    else Some(list.value + {Trimmed(part)})
  }

  function AllowList(parts: seq<string>): Option<set<string>> {
    if parts == [] then Some({}) else Listed(AllowList(parts[..|parts| - 1]), parts[|parts| - 1])
  }

  ghost predicate Mentions(parts: seq<string>, token: string) {
    exists part :: part in parts && Trimmed(part) == token
  }

  lemma MentionsOfOneMore(before: seq<string>, part: string, token: string)
    ensures Mentions(before + [part], token) <==> Mentions(before, token) || Trimmed(part) == token
  {
    hide Trimmed;
    if Mentions(before, token) {
      var p :| p in before && Trimmed(p) == token;
      assert p in before + [part];
    }
    assert part in before + [part];
  }

  predicate OnlyTchars(s: string) {
    forall i :: 0 <= i < |s| ==> IsTchar(s[i])
  }

  lemma ListableMeans(part: string)
    ensures IsListable(part) <==> OnlyTchars(Trimmed(part))
  {
    hide Trimmed, IsTokenCharacter, IsTchar;
    var t := Trimmed(part);
    forall i | 0 <= i < |t|
      ensures IsTokenCharacter(t[i]) <==> IsTchar(t[i])
    {
      TokenCharacters(t[i]);
    }
  }

  /** There is a list exactly when every part is blank or a token, and then it holds exactly those tokens. */
  lemma {:induction false} AllowListMeans(parts: seq<string>)
    ensures AllowList(parts).Some? <==> forall part :: part in parts ==> OnlyTchars(Trimmed(part))
    ensures AllowList(parts).Some? ==>
      forall token :: token in AllowList(parts).value <==> token != [] && Mentions(parts, token)
  {
    hide Trimmed, IsListable, Mentions, OnlyTchars;
    if parts != [] {
      ListableMeans(parts[|parts| - 1]);
      var before, last := parts[..|parts| - 1], parts[|parts| - 1];
      AllowListMeans(before);
      assert parts == before + [last];
      forall token {
        MentionsOfOneMore(before, last, token);
      }
    } else {
      NothingMentioned();
    }
  }

  lemma NothingMentioned()
    ensures forall token :: !Mentions([], token)
  {
  }

  lemma AllowListOfOneMore(before: seq<string>, part: string)
    ensures AllowList(before + [part]) == Listed(AllowList(before), part)
  {
    assert (before + [part])[..|before|] == before;
  }

  lemma {:induction false} InvalidStays(before: seq<string>, after: seq<string>)
    requires AllowList(before).None?
    ensures AllowList(before + after).None?
  {
    if after == [] {
      assert before + after == before;
    } else {
      InvalidStays(before, after[..|after| - 1]);
      AllowListOfOneMore(before + after[..|after| - 1], after[|after| - 1]);
      assert before + after == before + after[..|after| - 1] + [after[|after| - 1]];
    }
  }

  /** Adds the token between two positions, both included, unless there are only spaces. */
  method AddToAccessControlAllowList(s: string, first: nat, last: nat, tokens: set<string>)
    returns (ok: bool, result: set<string>)
    requires first <= last < |s|
    ensures Listed(Some(tokens), s[first..last + 1]) == if ok then Some(result) else None
  {
    hide IsValidHttpToken, IsHttpSpace;
    var start, end := first, last;
    while start <= end && IsHttpSpace(s[start])
      invariant first <= start <= end + 1 && end == last && Trimmed(s[start..end + 1]) == Trimmed(s[first..last + 1])
    {
      TrimmedStart(s, start, end + 1);
      start := start + 1;
    }
    if start > end {
      TrimmedBlank(s, start);
      return true, tokens;
    }
    while end > 0 && IsHttpSpace(s[end])
      invariant start <= end <= last && !IsHttpSpace(s[start]) &&
        Trimmed(s[start..end + 1]) == Trimmed(s[first..last + 1])
    {
      TrimmedEnd(s, start, end + 1);
      end := end - 1;
    }
    var token := s[start..start + (end - start + 1)];
    TrimmedBoth(token);
    if !IsValidHttpToken(token) {
      return false, tokens;
    }
    return true, tokens + {token};
  }

  lemma TrimmedStart(s: string, start: nat, end: nat)
    requires start < end <= |s| && IsHttpSpace(s[start])
    ensures Trimmed(s[start..end]) == Trimmed(s[start + 1..end])
  {
    assert s[start..end][1..] == s[start + 1..end];
  }

  lemma TrimmedEnd(s: string, start: nat, end: nat)
    requires start < end <= |s| && IsHttpSpace(s[end - 1]) && !IsHttpSpace(s[start])
    ensures start < end - 1 && Trimmed(s[start..end]) == Trimmed(s[start..end - 1])
  {
    assert s[start..end][..end - start - 1] == s[start..end - 1];
  }

  lemma TrimmedBlank(s: string, start: nat)
    requires start <= |s|
    ensures Trimmed(s[start..start]) == []
  {
  }

  lemma TrimmedBoth(token: string)
    requires token != [] && !IsHttpSpace(token[0]) && (|token| == 1 || !IsHttpSpace(token[|token| - 1]))
    ensures Trimmed(token) == token
  {
  }

  /** Goes from comma to comma and collects the tokens. */
  method ParseAccessControlAllowList(s: string) returns (list: Option<set<string>>)
    ensures list == AllowList(Parts(s, 0))
  {
    hide Listed, AllowList;
    var tokens := {};
    var start := 0;
    ghost var before := [];
    AllowListOfNone();
    while NextComma(s, start) != |s|
      invariant start <= |s| && before + Parts(s, start) == Parts(s, 0)
      invariant AllowList(before) == Some(tokens)
      decreases |s| - start
    {
      var end := NextComma(s, start);
      ghost var part := s[start..end];
      Regroup(before, part, Parts(s, end + 1));
      AllowListOfOneMore(before, part);
      var ok;
      ok, tokens := AddPart(s, start, end, tokens);
      before := before + [part];
      if !ok {
        InvalidStays(before, Parts(s, end + 1));
        return None;
      }
      start := end + 1;
    }
    assert Parts(s, start) == [s[start..]] && s[start..|s|] == s[start..];
    AllowListOfOneMore(before, s[start..]);
    var ok;
    ok, tokens := AddPart(s, start, |s|, tokens);
    return if ok then Some(tokens) else None;
  }

  /** Adds a part that may be empty. */
  method AddPart(s: string, start: nat, end: nat, tokens: set<string>) returns (ok: bool, result: set<string>)
    requires start <= end <= |s|
    ensures Listed(Some(tokens), s[start..end]) == if ok then Some(result) else None
  {
    if start != end {
      ok, result := AddToAccessControlAllowList(s, start, end - 1, tokens);
    } else {
      TrimmedBlank(s, start);
      return true, tokens;
    }
  }

  lemma AllowListOfNone()
    ensures AllowList([]) == Some({})
  {
  }

  lemma Regroup(before: seq<string>, part: string, after: seq<string>)
    ensures before + ([part] + after) == before + [part] + after
  {
  }
}

/** Cross-origin preflight responses, and the cache that lets a later request go without one. */
module PreflightCache {
  import opened AllowLists
  import opened Basics

  datatype Policy = DoNotUse | Use | EphemeralStateless

  /** A request header. `safelisted` tells whether its name and value need no permission. */
  datatype Header = Header(name: string, safelisted: bool)

  datatype Request = Request(url: string, verb: string, headers: seq<Header>)

  /** The parts of a preflight response that count. `maxAge` is the number in Access-Control-Max-Age, if there is
      one. */
  datatype Response = Response(successful: bool, allowOrigin: string, allowCredentials: string,
                               allowMethods: string, allowHeaders: string, maxAge: Option<nat>)

  datatype Error =
    | NotSuccessful
    | WildcardWithCredentials | SeveralOrigins | OriginNotAllowed(origin: string) | CredentialsNotAllowed
    | InvalidMethods | InvalidHeaders
    | MethodNotAllowed(verb: string) | HeaderNotAllowed(name: string)

  const DEFAULT_TIMEOUT := 5.0
  const MAX_TIMEOUT := 600.0

  /** Header names compare without regard to ASCII case. */
  function Folded(s: string): (t: string)
    ensures |t| == |s|
  {
    if s == [] then [] else [if 'A' <= s[0] <= 'Z' then s[0] - 'A' + 'a' else s[0]] + Folded(s[1..])
  }

  function FoldedAll(names: set<string>): set<string> {
    set name | name in names :: Folded(name)
  }

  /** Two names that differ at most in the case of ASCII letters. */
  predicate SameButCase(a: string, b: string) {
    && |a| == |b|
    && forall i :: 0 <= i < |a| ==> SameLetter(a[i], b[i])
  }

  predicate SameLetter(c: char, d: char) {
    || c == d
    || ('A' <= c <= 'Z' && d as int == c as int + 0x20)
    || ('A' <= d <= 'Z' && c as int == d as int + 0x20)
  }

  lemma {:induction false} FoldedAt(s: string, i: nat)
    requires i < |s|
    ensures Folded(s)[i] == if 'A' <= s[i] <= 'Z' then s[i] - 'A' + 'a' else s[i]
  {
    if i > 0 {
      FoldedAt(s[1..], i - 1);
    }
  }

  lemma FoldedIgnoresCase(a: string, b: string)
    ensures Folded(a) == Folded(b) <==> SameButCase(a, b)
  {
    hide Folded;
    forall i | 0 <= i < |a| {
      FoldedAt(a, i);
    }
    forall i | 0 <= i < |b| {
      FoldedAt(b, i);
    }
    if |a| == |b| {
      assert forall i :: 0 <= i < |a| ==> (Folded(a)[i] == Folded(b)[i] <==> SameLetter(a[i], b[i]));
    }
  }

  datatype Item = Item(expiry: real, policy: Policy, methods: set<string>, headers: set<string>) {
    predicate AllowsCrossOriginMethod(verb: string, policy: Policy) {
      verb in methods || ("*" in methods && policy != Use) || verb == "GET" || verb == "HEAD" || verb == "POST"
    }

    predicate AllowsHeader(header: Header, policy: Policy) {
      header.safelisted || Folded(header.name) in headers || ("*" in headers && policy != Use)
    }

    ghost predicate Allows(request: Request, policy: Policy) {
      && AllowsCrossOriginMethod(request.verb, policy)
      && forall header :: header in request.headers ==> AllowsHeader(header, policy)
    }

    /** The name of the first header that is not allowed. */
    method ValidateCrossOriginHeaders(requestHeaders: seq<Header>, policy: Policy) returns (bad: Option<string>)
      ensures bad.None? <==> forall header :: header in requestHeaders ==> AllowsHeader(header, policy)
      ensures bad.Some? ==> exists i ::
        && 0 <= i < |requestHeaders| && requestHeaders[i].name == bad.value && !AllowsHeader(requestHeaders[i], policy)
        && forall k :: 0 <= k < i ==> AllowsHeader(requestHeaders[k], policy)
    {
      hide Folded;
      var validWildcard := "*" in headers && policy != Use;
      var i := 0;
      while i < |requestHeaders|
        invariant i <= |requestHeaders| && forall k :: 0 <= k < i ==> AllowsHeader(requestHeaders[k], policy)
      {
        var header := requestHeaders[i];
        if !header.safelisted && Folded(header.name) !in headers && !validWildcard {
          assert header in requestHeaders && !AllowsHeader(header, policy);
          return Some(header.name);
        }
        i := i + 1;
      }
      return None;
    }

    method ValidateMethodAndHeaders(request: Request) returns (error: Option<Error>)
      ensures error.None? <==> Allows(request, policy)
      ensures error == Some(MethodNotAllowed(request.verb)) <==> !AllowsCrossOriginMethod(request.verb, policy)
      ensures error.Some? && AllowsCrossOriginMethod(request.verb, policy) ==>
        exists header :: header in request.headers && !AllowsHeader(header, policy)
          && error == Some(HeaderNotAllowed(header.name))
    {
      if !AllowsCrossOriginMethod(request.verb, policy) {
        return Some(MethodNotAllowed(request.verb));
      }
      var bad := ValidateCrossOriginHeaders(request.headers, policy);
      return if bad.Some? then Some(HeaderNotAllowed(bad.value)) else None;
    }

    method AllowsRequest(policy: Policy, request: Request, now: real) returns (allowed: bool)
      ensures allowed <==> now <= expiry && !(policy == Use && this.policy == DoNotUse) && Allows(request, policy)
    {
      if expiry < now {
        return false;
      }
      if policy == Use && this.policy == DoNotUse {
        return false;
      }
      if !AllowsCrossOriginMethod(request.verb, policy) {
        return false;
      }
      var bad := ValidateCrossOriginHeaders(request.headers, policy);
      return bad.None?;
    }
  }

  function Lifetime(maxAge: Option<nat>): (seconds: real)
    ensures 0.0 <= seconds <= 600.0 && (maxAge.None? ==> seconds == 5.0)
    ensures maxAge.Some? ==> seconds == 600.0 || seconds == maxAge.value as real
    ensures maxAge.Some? && maxAge.value <= 600 ==> seconds == maxAge.value as real
  {
    match maxAge
    case Some(age) => if age as real > MAX_TIMEOUT then MAX_TIMEOUT else age as real
    case None => DEFAULT_TIMEOUT
  }

  function MethodList(response: Response): Option<set<string>> {
    AllowList(Parts(response.allowMethods, 0))
  }

  function HeaderList(response: Response): Option<set<string>> {
    AllowList(Parts(response.allowHeaders, 0))
  }

  /** The item for a response whose two lists are valid. */
  ghost function ItemOf(response: Response, policy: Policy, now: real): Item
    requires MethodList(response).Some? && HeaderList(response).Some?
  {
    Item(now + Lifetime(response.maxAge), policy, MethodList(response).value, FoldedAll(HeaderList(response).value))
  }

  /**
   * What a response allows: a method or header that it lists, header names in any case, or that needs no permission.
   * A wildcard stands for all others, but never for a request with credentials.
   */
  lemma ItemAllows(response: Response, madeFor: Policy, time: real, request: Request, policy: Policy)
    requires MethodList(response).Some? && HeaderList(response).Some?
    ensures ItemOf(response, madeFor, time).Allows(request, policy) <==>
      && (|| request.verb in MethodList(response).value || request.verb in ["GET", "HEAD", "POST"]
          || ("*" in MethodList(response).value && policy in {DoNotUse, EphemeralStateless}))
      && forall header :: header in request.headers ==>
        || header.safelisted || (exists name :: name in HeaderList(response).value && SameButCase(name, header.name))
        || ("*" in HeaderList(response).value && policy in {DoNotUse, EphemeralStateless})
  {
    hide AllowList, Parts, Folded, SameButCase;
    var item, names := ItemOf(response, madeFor, time), HeaderList(response).value;
    OnlyStar();
    StarFolds(names);
    forall header: Header
      ensures item.AllowsHeader(header, policy) <==>
        || header.safelisted || (exists name :: name in names && SameButCase(name, header.name))
        || ("*" in names && policy in {DoNotUse, EphemeralStateless})
    {
      FoldsInto(names, header.name);
    }
  }

  lemma FoldsInto(names: set<string>, name: string)
    ensures Folded(name) in FoldedAll(names) <==> exists other :: other in names && SameButCase(other, name)
  {
    hide Folded, SameButCase;
    forall other | other in names
      ensures Folded(other) == Folded(name) <==> SameButCase(other, name)
    {
      FoldedIgnoresCase(other, name);
    }
  }

  /** No other name is a wildcard in another case. */
  lemma StarFolds(names: set<string>)
    ensures "*" in FoldedAll(names) <==> "*" in names
  {
    hide Folded;
    OnlyStar();
    forall name: string | Folded(name) == "*"
      ensures name == "*"
    {
      FoldedIgnoresCase(name, "*");
    }
  }

  lemma OnlyStar()
    ensures forall name :: SameButCase(name, "*") ==> name == "*"
    ensures Folded("*") == "*"
  {
  }

  datatype Created = Made(item: Item) | Failed(error: Error)

  method Create(policy: Policy, response: Response, now: real) returns (created: Created)
    ensures created.Made? <==> MethodList(response).Some? && HeaderList(response).Some?
    ensures created.Made? ==> created.item == ItemOf(response, policy, now)
    ensures created.Failed? ==> created.error == if MethodList(response).None? then InvalidMethods else InvalidHeaders
  {
    hide AllowList, Parts, Folded;
    var methods := ParseAccessControlAllowList(response.allowMethods);
    if methods.None? {
      return Failed(InvalidMethods);
    }
    var headers := ParseAccessControlAllowList(response.allowHeaders);
    if headers.None? {
      return Failed(InvalidHeaders);
    }
    return Made(Item(now + Lifetime(response.maxAge), policy, methods.value, FoldedAll(headers.value)));
  }

  /** Why a response does not let an origin in, if it does not. */
  function PassesAccessControlCheck(response: Response, policy: Policy, origin: string): (error: Option<Error>)
    ensures error.None? <==>
      || (response.allowOrigin == "*" && policy == DoNotUse)
      || (response.allowOrigin == origin && (policy == Use ==> response.allowCredentials == "true"))
    ensures error == Some(CredentialsNotAllowed) <==>
      response.allowOrigin == origin && policy == Use && response.allowCredentials != "true"
    ensures error == Some(WildcardWithCredentials) <==>
      response.allowOrigin == "*" && origin != "*" && policy != DoNotUse
    ensures error == Some(SeveralOrigins) <==>
      response.allowOrigin != "*" && response.allowOrigin != origin && ',' in response.allowOrigin
  {
    if response.allowOrigin == "*" && policy == DoNotUse then None
    else if response.allowOrigin != origin then
      if response.allowOrigin == "*" then Some(WildcardWithCredentials)
      else if ',' in response.allowOrigin then Some(SeveralOrigins)
      else Some(OriginNotAllowed(origin))
    else if policy == Use && response.allowCredentials != "true" then Some(CredentialsNotAllowed)
    else None
  }

  /** What gets a response into the cache: everything but the permission for the one request it was made for. */
  ghost predicate Cacheable(response: Response, policy: Policy, origin: string) {
    && response.successful && PassesAccessControlCheck(response, policy, origin).None?
    && MethodList(response).Some? && HeaderList(response).Some?
  }

  /** Whether a preflight with this response lets the request through. */
  ghost predicate PreflightSucceeds(request: Request, response: Response, policy: Policy, origin: string) {
    Cacheable(response, policy, origin) && ItemOf(response, policy, 0.0).Allows(request, policy)
  }

  /** Where an item came from. */
  datatype Source = Source(response: Response, policy: Policy, origin: string, time: real) {
    ghost predicate Gives(item: Item) {
      Cacheable(response, policy, origin) && item == ItemOf(response, policy, time)
    }

    /**
     * The two ways in which the third policy slips through the comparison of policies: a response that was taken
     * without looking at credentials serves a request with credentials, or a wildcard origin serves a request that
     * no wildcard may
     serve. */
    predicate Slips(newPolicy: Policy) {
      || (newPolicy == Use && policy == EphemeralStateless && response.allowCredentials != "true")
      || (newPolicy == EphemeralStateless && policy == DoNotUse && response.allowOrigin != origin)
    }
  }

  /** A usable item allows just what a fresh preflight with the same response would, apart from the two ways above. */
  lemma SkippingIsSound(source: Source, item: Item, policy: Policy, request: Request, now: real)
    requires source.Gives(item)
    requires now <= item.expiry && !(policy == Use && item.policy == DoNotUse) && item.Allows(request, policy)
    ensures now - source.time <= 600.0
    ensures PreflightSucceeds(request, source.response, policy, source.origin) <==> !source.Slips(policy)
    ensures policy != EphemeralStateless && source.policy != EphemeralStateless ==> !source.Slips(policy)
  {
    hide AllowList, Parts, Folded;
    SameAllowance(source, policy, request);
  }

  lemma SameAllowance(source: Source, policy: Policy, request: Request)
    requires MethodList(source.response).Some? && HeaderList(source.response).Some?
    ensures ItemOf(source.response, source.policy, source.time).Allows(request, policy)
       <==> ItemOf(source.response, policy, 0.0).Allows(request, policy)
  {
    hide AllowList, Parts, Folded;
    var a, b := ItemOf(source.response, source.policy, source.time), ItemOf(source.response, policy, 0.0);
    assert forall header: Header :: a.AllowsHeader(header, policy) <==> b.AllowsHeader(header, policy);
  }

  /** A response taken for an ephemeral session lets a request with credentials go without a preflight that would
      fail. */
  lemma EphemeralEntrySkips() returns (source: Source, request: Request)
    ensures source.policy == EphemeralStateless
    ensures exists item :: source.Gives(item) && source.time <= item.expiry && item.Allows(request, Use)
    ensures !PreflightSucceeds(request, source.response, Use, source.origin)
  {
    var response := Response(true, "https://a", "", "", "", None);
    source, request := Source(response, EphemeralStateless, "https://a", 0.0), Request("https://b", "GET", []);
    assert Trimmed("") == "" && Parts("", 0) == [""];
    AllowListMeans([""]);
    var item := ItemOf(response, EphemeralStateless, 0.0);
    assert source.Gives(item) && item.Allows(request, Use);
  }

  /** A wildcard taken without credentials lets an ephemeral request go without a preflight that would fail. */
  lemma WildcardEntrySkips() returns (source: Source, request: Request)
    ensures source.policy == DoNotUse
    ensures exists item :: source.Gives(item) && source.time <= item.expiry && item.Allows(request, EphemeralStateless)
    ensures !PreflightSucceeds(request, source.response, EphemeralStateless, source.origin)
  {
    var response := Response(true, "*", "", "", "", None);
    source, request := Source(response, DoNotUse, "https://a", 0.0), Request("https://b", "GET", []);
    assert Trimmed("") == "" && Parts("", 0) == [""];
    AllowListMeans([""]);
    var item := ItemOf(response, DoNotUse, 0.0);
    assert source.Gives(item) && item.Allows(request, EphemeralStateless);
  }

  class CrossOriginPreflightResultCache {
    var items: map<(string, string), Item>
    ghost var sources: map<(string, string), Source>

    /** Every item in the cache came from a response that its origin was let in by. */
    ghost predicate Valid()
      reads this
    {
      && items.Keys == sources.Keys
      && forall key :: key in items ==> sources[key].Gives(items[key]) && sources[key].origin == key.0
    }

    constructor ()
      ensures Valid() && items == map[]
    {
      items, sources := map[], map[];
    }

    method AppendEntry(origin: string, url: string, item: Item, ghost source: Source)
      requires Valid() && source.Gives(item) && source.origin == origin
      modifies this
      ensures Valid() && items == old(items)[(origin, url) := item] && sources == old(sources)[(origin, url) := source]
    {
      items := items[(origin, url) := item];
      sources := sources[(origin, url) := source];
    }

    method Clear()
      modifies this
      ensures Valid() && items == map[]
    {
      items, sources := map[], map[];
    }

    /** Checks the response of a preflight. It is kept even if it does not allow the request that it was for. */
    method ValidatePreflightResponse(request: Request, response: Response, policy: Policy, origin: string, now: real)
      returns (error: Option<Error>)
      requires Valid()
      modifies this
      ensures Valid()
      ensures error.None? <==> PreflightSucceeds(request, response, policy, origin)
      ensures !response.successful ==> error == Some(NotSuccessful)
      ensures response.successful && PassesAccessControlCheck(response, policy, origin).Some? ==>
        error == PassesAccessControlCheck(response, policy, origin)
      ensures !Cacheable(response, policy, origin) ==> items == old(items) && sources == old(sources)
      ensures Cacheable(response, policy, origin) ==>
        && items == old(items)[(origin, request.url) := ItemOf(response, policy, now)]
        && sources == old(sources)[(origin, request.url) := Source(response, policy, origin, now)]
    {
      hide AllowList, Parts, Folded, Item.Allows;
      if !response.successful {
        return Some(NotSuccessful);
      }
      var check := PassesAccessControlCheck(response, policy, origin);
      if check.Some? {
        return check;
      }
      var created := Create(policy, response, now);
      if created.Failed? {
        return Some(created.error);
      }
      error := created.item.ValidateMethodAndHeaders(request);
      SameAllowance(Source(response, policy, origin, now), policy, request);
      AppendEntry(origin, request.url, created.item, Source(response, policy, origin, now));
    }

    /** Whether a request may go without a preflight. An item that does not serve is removed. */
    method CanSkipPreflight(origin: string, request: Request, policy: Policy, now: real) returns (skip: bool)
      requires Valid()
      modifies this
      ensures Valid()
      ensures skip ==>
        && items == old(items) && sources == old(sources) && (origin, request.url) in sources
        && var source := sources[(origin, request.url)];
        && source.origin == origin && now - source.time <= 600.0
        && (PreflightSucceeds(request, source.response, policy, origin) <==> !source.Slips(policy))
        && (policy != EphemeralStateless && source.policy != EphemeralStateless ==>
             PreflightSucceeds(request, source.response, policy, origin))
      ensures !skip ==>
        items == old(items) - {(origin, request.url)} && sources == old(sources) - {(origin, request.url)}
      ensures !skip && (origin, request.url) in old(items) ==>
        var source, item := old(sources)[(origin, request.url)], old(items)[(origin, request.url)];
        || item.expiry < now || (policy == Use && source.policy == DoNotUse)
        || !PreflightSucceeds(request, source.response, policy, origin)
    {
      hide AllowList, Parts, Folded, Item.Allows;
      var key := (origin, request.url);
      if key !in items {
        return false;
      }
      var item := items[key];
      var allowed := item.AllowsRequest(policy, request, now);
      SameAllowance(sources[key], policy, request);
      if allowed {
        SkippingIsSound(sources[key], item, policy, request, now);
        return true;
      }
      items := items - {key};
      sources := sources - {key};
      return false;
    }
  }
}
