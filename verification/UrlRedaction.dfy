/**
 `redact_url` hides the password of a URL, `redact_url_path` everything but scheme and host.
 A URL is read as in section 3.2 of RFC 3986: scheme, "://", user info, '@', host, and the
 rest, where the user info is a user name and a password separated by the first ':'.
 */
module UrlRedaction {
  import opened Common

  const SEPARATOR := "://"

  predicate SeparatorAt(s: string, i: nat) {
    i + 3 <= |s| && s[i] == ':' && s[i + 1] == '/' && s[i + 2] == '/'
  }

  ghost predicate NoSeparator(s: string) {
    forall i: nat :: !SeparatorAt(s, i)
  }

  /** Where "://" first occurs. */
  function FindSeparator(s: string, from: nat := 0): (r: Option<nat>)
    ensures r.Some? ==> from <= r.value && r.value + 3 <= |s|
    decreases |s| - from
  {
    if from >= |s| then None
    else if SeparatorAt(s, from) then Some(from)
    else FindSeparator(s, from + 1)
  }

  lemma {:induction false} FindSeparatorIsFirst(s: string, from: nat)
    ensures var r := FindSeparator(s, from);
      && (r.Some? ==> SeparatorAt(s, r.value))
      && forall i: nat :: from <= i < (if r.Some? then r.value else |s|) ==> !SeparatorAt(s, i)
    decreases |s| - from
  {
    if from < |s| && !SeparatorAt(s, from) {
      FindSeparatorIsFirst(s, from + 1);
    }
  }

  /** Where a character of `cs` first occurs, or the length of `s`. */
  function FindAny(s: string, cs: set<char>): (r: nat)
    ensures r <= |s|
  {
    if s == [] then 0 else if s[0] in cs then 0 else 1 + FindAny(s[1..], cs)
  }

  lemma {:induction false} FindAnyIsFirst(s: string, cs: set<char>)
    ensures FindAny(s, cs) < |s| ==> s[FindAny(s, cs)] in cs
    ensures forall i :: 0 <= i < FindAny(s, cs) ==> s[i] !in cs
  {
    if s != [] && s[0] !in cs {
      FindAnyIsFirst(s[1..], cs);
      assert forall i :: 1 <= i < |s| ==> s[i] == s[1..][i - 1];
    }
  }

  /** Where `c` last occurs. */
  function FindLast(s: string, c: char): (r: Option<nat>)
    ensures r.Some? ==> r.value < |s|
  {
    if s == [] then None
    else if s[|s| - 1] == c then Some(|s| - 1)
    else FindLast(s[..|s| - 1], c)
  }

  lemma {:induction false} FindLastIsLast(s: string, c: char)
    ensures var r := FindLast(s, c);
      && (r.Some? ==> s[r.value] == c)
      && forall i :: (if r.Some? then r.value + 1 else 0) <= i < |s| ==> s[i] != c
  {
    if s != [] && s[|s| - 1] != c {
      FindLastIsLast(s[..|s| - 1], c);
    }
  }

  /** What follows the scheme with its password replaced, if it has one. */
  function RedactRest(rest: string): Option<string> {
    var at := FindLast(rest[..FindAny(rest, {'/'})], '@');
    if at.None? then None
    else
      var userinfo, tail := rest[..at.value], rest[at.value..];
      var colon := FindAny(userinfo, {':'});
      if colon == |userinfo| then None
      else Some(userinfo[..colon] + ":***" + tail)
  }

  function RedactUrl(url: string): string {
    var sep := FindSeparator(url);
    if sep.None? then url
    else
      var scheme, redacted := url[..sep.value], RedactRest(url[sep.value + 3..]);
      if redacted.None? then url else scheme + SEPARATOR + redacted.value
  }

  function RedactUrlPath(url: string): string {
    var sep := FindSeparator(url);
    if sep.None? then "***"
    else
      var scheme, rest := url[..sep.value], url[sep.value + 3..];
      var end := FindAny(rest, {'/', '?', '#'});
      var authority := rest[..end];
      var host := HostOf(authority);
      if end == |rest| || rest[end..] == "/" then scheme + SEPARATOR + host
      else scheme + SEPARATOR + host + "/***"
  }

  // ---------------------------------------------------------------- parts of a URL

  // `host` runs from the '@' to the path; `rest` is the path and what follows it.
  datatype Parts = Parts(scheme: string, user: string, host: string, rest: string) {
    ghost predicate Valid() {
      && NoSeparator(scheme)
      && Lacks(user, {':'})
      && Lacks(host, {'@', '/'})
      && (rest != [] ==> rest[0] == '/')
    }

    function Body(password: string): string {
      user + ":" + password + "@" + host + rest
    }

    function WithPassword(password: string): string {
      scheme + SEPARATOR + Body(password)
    }
  }

  lemma SeparatorOf(scheme: string, rest: string)
    requires NoSeparator(scheme)
    ensures FindSeparator(scheme + SEPARATOR + rest) == Some(|scheme|)
    ensures (scheme + SEPARATOR + rest)[..|scheme|] == scheme && (scheme + SEPARATOR + rest)[|scheme| + 3..] == rest
  {
    var url := scheme + SEPARATOR + rest;
    assert SeparatorAt(url, |scheme|);
    forall i: nat | i < |scheme| ensures !SeparatorAt(url, i) {
      assert !SeparatorAt(scheme, i);
    }
    FindSeparatorIsFirst(url, 0);
  }

  lemma FindAnyAt(s: string, cs: set<char>, k: nat)
    requires k <= |s| && (k < |s| ==> s[k] in cs) && forall i :: 0 <= i < k ==> s[i] !in cs
    ensures FindAny(s, cs) == k
  {
    FindAnyIsFirst(s, cs);
  }

  lemma FindLastAt(s: string, c: char, k: nat)
    requires k < |s| && s[k] == c && forall i :: k < i < |s| ==> s[i] != c
    ensures FindLast(s, c) == Some(k)
  {
  }

  predicate Lacks(s: string, cs: set<char>) {
    forall i :: 0 <= i < |s| ==> s[i] !in cs
  }

  /** The authority ends where the path starts. */
  lemma AuthorityOf(authority: string, rest: string, cs: set<char>)
    requires Lacks(authority, cs) && (rest != [] ==> rest[0] in cs)
    ensures FindAny(authority + rest, cs) == |authority|
    ensures (authority + rest)[..|authority|] == authority && (authority + rest)[|authority|..] == rest
  {
    FindAnyAt(authority + rest, cs, |authority|);
  }

  /** The user info ends at the last '@' of the authority. */
  lemma UserInfoOf(userinfo: string, host: string)
    requires Lacks(host, {'@'})
    ensures FindLast(userinfo + "@" + host, '@') == Some(|userinfo|)
    ensures (userinfo + "@" + host)[..|userinfo|] == userinfo && (userinfo + "@" + host)[|userinfo| + 1..] == host
  {
    FindLastAt(userinfo + "@" + host, '@', |userinfo|);
  }

  /** The user name ends at the first ':' of the user info. */
  lemma UserOf(user: string, password: string)
    requires Lacks(user, {':'})
    ensures FindAny(user + ":" + password, {':'}) == |user| && (user + ":" + password)[..|user|] == user
  {
    FindAnyAt(user + ":" + password, {':'}, |user|);
  }

  lemma RedactsUserInfo(user: string, userinfo: string, host: string, rest: string)
    requires Lacks(userinfo, {'/'}) && Lacks(host, {'@', '/'}) && (rest != [] ==> rest[0] == '/')
    requires |user| < |userinfo| && FindAny(userinfo, {':'}) == |user| && userinfo[..|user|] == user
    ensures RedactRest(userinfo + "@" + host + rest) == Some(user + ":***" + ("@" + host + rest))
  {
    var authority := userinfo + "@" + host;
    assert Lacks(authority, {'/'});
    AuthorityOf(authority, rest, {'/'});
    UserInfoOf(userinfo, host);
    TailOf(userinfo, host, rest);
    var whole := authority + rest;
    assert FindLast(whole[..|authority|], '@') == Some(|userinfo|);
    assert RedactRest(whole) == Some(whole[..|userinfo|][..|user|] + ":***" + whole[|userinfo|..]);
  }

  lemma Reassociate(a: string, b: string, c: string, d: string)
    ensures a + (b + c + d) == a + b + c + d
  {
  }

  lemma RedactsBody(parts: Parts, password: string)
    requires parts.Valid() && Lacks(parts.user, {'/'}) && Lacks(password, {'/'})
    ensures RedactRest(parts.Body(password)) == Some(parts.Body("***"))
  {
    UserOf(parts.user, password);
    var userinfo := parts.user + ":" + password;
    assert Lacks(userinfo, {'/'});
    RedactsUserInfo(parts.user, userinfo, parts.host, parts.rest);
    Reassociate(parts.user + ":***", "@", parts.host, parts.rest);
    assert parts.user + ":" + "***" == parts.user + ":***";
  }

  /** Without a slash in user and password, the password, whatever else it contains, is replaced by "***". */
  lemma RedactsPassword(parts: Parts, password: string)
    requires parts.Valid() && Lacks(parts.user, {'/'}) && Lacks(password, {'/'})
    ensures RedactUrl(parts.WithPassword(password)) == parts.WithPassword("***")
  {
    SeparatorOf(parts.scheme, parts.Body(password));
    RedactsBody(parts, password);
  }

  lemma TailOf(userinfo: string, host: string, rest: string)
    ensures (userinfo + "@" + host + rest)[..|userinfo|] == userinfo
    ensures (userinfo + "@" + host + rest)[|userinfo|..] == "@" + host + rest
  {
  }

  /** Whatever is redacted has a password. */
  lemma RedactedHasPassword(scheme: string, rest: string) returns (parts: Parts, password: string)
    requires NoSeparator(scheme) && RedactRest(rest).Some?
    ensures parts.Valid() && parts.scheme == scheme && rest == parts.Body(password)
    ensures Lacks(parts.user, {'/'}) && Lacks(password, {'/'})
  {
    var end := FindAny(rest, {'/'});
    var at := FindLast(rest[..end], '@').value;
    var userinfo := rest[..at];
    var colon := FindAny(userinfo, {':'});
    parts := Parts(scheme, userinfo[..colon], rest[at + 1..end], rest[end..]);
    password := userinfo[colon + 1..];
    LacksSlice(rest, end, at, colon);
    SplitAtColon(userinfo, colon);
    SplitAtLastAt(rest, end, at);
  }

  lemma SplitAtColon(userinfo: string, colon: nat)
    requires colon == FindAny(userinfo, {':'}) < |userinfo|
    ensures Lacks(userinfo[..colon], {':'}) && userinfo == userinfo[..colon] + ":" + userinfo[colon + 1..]
  {
    FindAnyIsFirst(userinfo, {':'});
    SplitAround(userinfo, colon);
    assert [userinfo[colon]] == ":";
  }

  lemma SplitAround(s: string, i: nat)
    requires i < |s|
    ensures s == s[..i] + [s[i]] + s[i + 1..]
  {
  }

  lemma SplitAtLastAt(rest: string, end: nat, at: nat)
    requires end == FindAny(rest, {'/'}) && FindLast(rest[..end], '@') == Some(at)
    ensures Lacks(rest[at + 1..end], {'@'}) && (rest[end..] != [] ==> rest[end] == '/')
    ensures rest == rest[..at] + "@" + rest[at + 1..end] + rest[end..]
  {
    FindAnyIsFirst(rest, {'/'});
    FindLastIsLast(rest[..end], '@');
    SplitTwice(rest, at, end);
    assert rest[at] == rest[..end][at] == '@';
    assert forall i :: at < i < end ==> rest[i] == rest[..end][i];
  }

  lemma SplitTwice(s: string, i: nat, j: nat)
    requires i < j <= |s|
    ensures s == s[..i] + [s[i]] + s[i + 1..j] + s[j..]
  {
    assert s == s[..j] + s[j..];
    assert s[..j] == s[..i] + [s[i]] + s[i + 1..j];
  }

  lemma LacksSlice(rest: string, end: nat, at: nat, colon: nat)
    requires end == FindAny(rest, {'/'}) && colon < at < end
    ensures Lacks(rest[..at][..colon], {'/'}) && Lacks(rest[..at][colon + 1..], {'/'})
    ensures Lacks(rest[at + 1..end], {'/'})
  {
    FindAnyIsFirst(rest, {'/'});
  }

  lemma SchemeHasNoSeparator(url: string)
    requires FindSeparator(url).Some?
    ensures NoSeparator(url[..FindSeparator(url).value])
    ensures url == url[..FindSeparator(url).value] + SEPARATOR + url[FindSeparator(url).value + 3..]
  {
    var scheme := url[..FindSeparator(url).value];
    FindSeparatorIsFirst(url, 0);
    forall i: nat ensures !SeparatorAt(scheme, i) {
      assert SeparatorAt(scheme, i) ==> SeparatorAt(url, i);
    }
  }

  /** Redacting twice is redacting once. */
  lemma RedactUrlIdempotent(url: string)
    ensures RedactUrl(RedactUrl(url)) == RedactUrl(url)
  {
    if RedactUrl(url) != url {
      var parts, password := ChangedHasPassword(url);
      RedactsPassword(parts, password);
      RedactsPassword(parts, "***");
    }
  }

  lemma ChangedHasPassword(url: string) returns (parts: Parts, password: string)
    requires RedactUrl(url) != url
    ensures parts.Valid() && Lacks(parts.user, {'/'}) && Lacks(password, {'/'})
    ensures url == parts.WithPassword(password)
  {
    SchemeHasNoSeparator(url);
    var sep := FindSeparator(url).value;
    parts, password := RedactedHasPassword(url[..sep], url[sep + 3..]);
  }

  predicate EndsWith(s: string, tail: string) {
    |tail| <= |s| && s[|s| - |tail|..] == tail
  }

  /** What follows the password's first slash, that slash included, and the rest of the URL. */
  function FromSlash(parts: Parts, password: string): string {
    password[FindAny(password, {'/'})..] + "@" + parts.host + parts.rest
  }

  /**
   A password is hidden exactly when neither it nor the user name has a slash; only a password
   that is the mask itself looks the same. The text before the first slash looks like the
   whole authority: a slash in the user name leaves the URL unchanged, and of a password with
   a slash everything from that slash on is shown.
   */
  lemma HiddenExactlyWithoutSlash(parts: Parts, password: string)
    requires parts.Valid()
    ensures RedactUrl(parts.WithPassword(password)) == parts.WithPassword("***") <==>
      (Lacks(parts.user, {'/'}) && Lacks(password, {'/'})) || password == "***"
    ensures !Lacks(parts.user, {'/'}) ==> RedactUrl(parts.WithPassword(password)) == parts.WithPassword(password)
    ensures Lacks(parts.user, {'/'}) && !Lacks(password, {'/'}) ==>
      |FromSlash(parts, password)| > |"@" + parts.host + parts.rest|
      && EndsWith(RedactUrl(parts.WithPassword(password)), FromSlash(parts, password))
  {
    if !Lacks(parts.user, {'/'}) {
      SlashInUserShows(parts, password);
      if password != "***" {
        PasswordsDiffer(parts, password, "***");
      }
    } else if Lacks(password, {'/'}) {
      RedactsPassword(parts, password);
    } else {
      var before, after := SplitAtSlash(password);
      SlashShows(parts, before, after);
    }
  }

  /** Two slash-free passwords redact to the same text exactly when the user name has no slash. */
  lemma PasswordDoesNotShow(parts: Parts, p: string, q: string)
    requires parts.Valid() && Lacks(p, {'/'}) && Lacks(q, {'/'}) && p != q
    ensures RedactUrl(parts.WithPassword(p)) == RedactUrl(parts.WithPassword(q)) <==> Lacks(parts.user, {'/'})
  {
    if Lacks(parts.user, {'/'}) {
      RedactsPassword(parts, p);
      RedactsPassword(parts, q);
    } else {
      SlashInUserShows(parts, p);
      SlashInUserShows(parts, q);
      PasswordsDiffer(parts, p, q);
    }
  }

  lemma PasswordsDiffer(parts: Parts, p: string, q: string)
    requires p != q
    ensures parts.WithPassword(p) != parts.WithPassword(q)
  {
    PasswordOf(parts, p);
    PasswordOf(parts, q);
  }

  /** With a slash in the user name, nothing is hidden. */
  lemma SlashInUserShows(parts: Parts, password: string)
    requires parts.Valid() && !Lacks(parts.user, {'/'})
    ensures RedactUrl(parts.WithPassword(password)) == parts.WithPassword(password)
  {
    var before, after := SplitAtSlash(parts.user);
    var path := after + ":" + password + "@" + parts.host + parts.rest;
    assert parts.Body(password) == before + path;
    NoColonNoPassword(before);
    SlashedUrl(parts.scheme, before, path);
  }

  lemma NoColonNoPassword(authority: string)
    requires Lacks(authority, {':'}) && Lacks(authority, {'/'})
    ensures RedactRest(authority).None?
  {
    AuthorityOf(authority, "", {'/'});
    NothingAppended(authority);
    var at := FindLast(authority, '@');
    if at.Some? {
      FindAnyAt(authority[..at.value], {':'}, at.value);
    }
  }

  lemma SplitAtSlash(password: string) returns (before: string, after: string)
    requires !Lacks(password, {'/'})
    ensures password == before + after && Lacks(before, {'/'})
    ensures after != [] && after[0] == '/' && after == password[FindAny(password, {'/'})..]
  {
    var k := FindAny(password, {'/'});
    FindAnyIsFirst(password, {'/'});
    before, after := password[..k], password[k..];
  }

  /** Only the authority is redacted; from the path on, the text is kept. */
  lemma PathIsKept(authority: string, path: string)
    requires Lacks(authority, {'/'}) && path != [] && path[0] == '/'
    ensures RedactRest(authority + path) ==
      if RedactRest(authority).None? then None else Some(RedactRest(authority).value + path)
  {
    AuthorityOf(authority, path, {'/'});
    AuthorityOf(authority, "", {'/'});
    NothingAppended(authority);
    var at := FindLast(authority, '@');
    if at.Some? {
      CutAppended(authority, path, at.value);
      var userinfo := authority[..at.value];
      var shown := userinfo[..FindAny(userinfo, {':'})] + ":***";
      Associate(shown, authority[at.value..], path);
    }
  }

  lemma CutAppended(a: string, b: string, i: nat)
    requires i <= |a|
    ensures (a + b)[..i] == a[..i] && (a + b)[i..] == a[i..] + b
  {
  }

  lemma Associate(a: string, b: string, c: string)
    ensures a + (b + c) == a + b + c
  {
  }

  lemma SlashedUrl(scheme: string, authority: string, path: string)
    requires NoSeparator(scheme) && Lacks(authority, {'/'}) && path != [] && path[0] == '/'
    ensures RedactUrl(scheme + SEPARATOR + (authority + path)) ==
      scheme + SEPARATOR + ((if RedactRest(authority).None? then authority else RedactRest(authority).value) + path)
  {
    SeparatorOf(scheme, authority + path);
    PathIsKept(authority, path);
  }

  /** A user name and the start of a password are redacted only if that start has an '@'. */
  lemma AuthorityKeepsUser(user: string, before: string)
    requires Lacks(user, {':', '/'}) && Lacks(before, {'/'})
    ensures var r := RedactRest(user + ":" + before);
      && (r.Some? ==> |r.value| > |user| + 4)
      && (Lacks(user, {'@'}) && Lacks(before, {'@'}) ==> r.None?)
  {
    var authority := user + ":" + before;
    AuthorityOf(authority, "", {'/'});
    NothingAppended(authority);
    var at := FindLast(authority, '@');
    FindLastIsLast(authority, '@');
    if at.Some? {
      if at.value > |user| {
        var kept := before[..at.value - |user| - 1];
        assert authority[..at.value] == user + ":" + kept;
        UserOf(user, kept);
      } else {
        assert authority[..at.value] == user[..at.value];
        FindAnyAt(user[..at.value], {':'}, at.value);
      }
    }
  }

  lemma EndsWithAppended(head: string, tail: string)
    ensures EndsWith(head + tail, tail)
  {
  }

  /** The failing family, and what it shows: all from the first slash on, or the whole URL. */
  lemma SlashShows(parts: Parts, before: string, after: string)
    requires parts.Valid() && Lacks(parts.user, {'/'})
    requires Lacks(before, {'/'}) && after != [] && after[0] == '/'
    ensures var url := parts.WithPassword(before + after);
      && RedactUrl(url) != parts.WithPassword("***")
      && EndsWith(RedactUrl(url), after + "@" + parts.host + parts.rest)
      && (Lacks(parts.user, {'@'}) && Lacks(before, {'@'}) ==> RedactUrl(url) == url)
  {
    var path := after + "@" + parts.host + parts.rest;
    var authority := parts.user + ":" + before;
    var shown := if RedactRest(authority).None? then authority else RedactRest(authority).value;
    BodyWithSlash(parts, before, after);
    SlashedUrl(parts.scheme, authority, path);
    AuthorityKeepsUser(parts.user, before);
    ShownDiffers(parts, before, after, shown);
    ShownEnd(parts.scheme + SEPARATOR, shown, path);
  }

  lemma BodyWithSlash(parts: Parts, before: string, after: string)
    ensures parts.Body(before + after) == parts.user + ":" + before + (after + "@" + parts.host + parts.rest)
  {
  }

  lemma ShownEnd(a: string, b: string, tail: string)
    ensures EndsWith(a + (b + tail), tail)
  {
    Associate(a, b, tail);
    EndsWithAppended(a + b, tail);
  }

  /** The shown text is not the redacted one: it is longer, or it has a slash in the password. */
  lemma ShownDiffers(parts: Parts, before: string, after: string, shown: string)
    requires after != [] && after[0] == '/'
    requires shown == parts.user + ":" + before || |shown| > |parts.user| + 4
    ensures parts.scheme + SEPARATOR + (shown + (after + "@" + parts.host + parts.rest)) != parts.WithPassword("***")
  {
    PasswordOf(parts, "***");
    if |shown| <= |parts.user| + 4 {
      assert (before + after)[|before|] == '/';
      assert shown + (after + "@" + parts.host + parts.rest) == parts.Body(before + after);
      PasswordOf(parts, before + after);
    }
  }

  lemma PasswordOf(parts: Parts, password: string)
    ensures var url := parts.WithPassword(password);
      var start := |parts.scheme| + 3 + |parts.user| + 1;
      && |url| == start + |password| + 1 + |parts.host| + |parts.rest|
      && url[start..start + |password|] == password
  {
  }

  /** One URL of each family: nothing of it is hidden. */
  lemma SlashInPasswordExample()
    ensures RedactUrl("db://u:a/b@h") == "db://u:a/b@h"
  {
    assert RedactRest("u:a/b@h").None? by {
      PathIsKept("u:a", "/b@h");
      AuthorityKeepsUser("u", "a");
      assert "u" + ":" + "a" == "u:a" && "u:a" + "/b@h" == "u:a/b@h";
    }
    RedactsRest("db://u:a/b@h", "db", "u:a/b@h");
  }

  lemma SlashInUserExample()
    ensures RedactUrl("db://a/b:pw@h") == "db://a/b:pw@h"
  {
    assert RedactRest("a/b:pw@h").None? by {
      PathIsKept("a", "/b:pw@h");
      NoColonNoPassword("a");
      assert "a" + "/b:pw@h" == "a/b:pw@h";
    }
    RedactsRest("db://a/b:pw@h", "db", "a/b:pw@h");
  }

  lemma RedactsRest(url: string, scheme: string, rest: string)
    requires NoSeparator(scheme) && url == scheme + SEPARATOR + rest
    ensures RedactUrl(url) == if RedactRest(rest).None? then url else scheme + SEPARATOR + RedactRest(rest).value
  {
    SeparatorOf(scheme, rest);
  }

  // ---------------------------------------------------------------- URLs without a password

  /** Whether an authority has a password: a ':' before its last '@'. */
  predicate HasPassword(authority: string) {
    var at := FindLast(authority, '@');
    at.Some? && !Lacks(authority[..at.value], {':'})
  }

  /** Whether an '@' in query or fragment makes what comes before it look like a password to hide. */
  predicate LooksLikePassword(authority: string, query: string) {
    var at := FindLast(query, '@');
    && at.Some?
    && var userinfo := authority + query[..at.value];
       !Lacks(userinfo, {':'}) && userinfo[FindColon(userinfo)..] != ":***"
  }

  function FindColon(s: string): (r: nat)
    ensures r <= |s|
  {
    FindAny(s, {':'})
  }

  /**
   A URL without a password, its authority ending at the first '/', '?' or '#', is returned
   unchanged exactly when no '@' in a query or fragment right after the authority follows a
   ':'. Otherwise whatever lies between the two is hidden as if it were a password.
   */
  lemma UnchangedWithoutPasswordExactly(scheme: string, authority: string, query: string, path: string)
    requires NoSeparator(scheme) && Lacks(authority, {'/', '?', '#'}) && !HasPassword(authority)
    requires Lacks(query, {'/'}) && (query != [] ==> query[0] in {'?', '#'}) && (path != [] ==> path[0] == '/')
    ensures var url := scheme + SEPARATOR + (authority + query + path);
      RedactUrl(url) == url <==> !LooksLikePassword(authority, query)
  {
    SeparatorOf(scheme, authority + query + path);
    var at := FindLast(query, '@');
    if at.None? {
      FindLastIsLast(query, '@');
      NothingToHide(authority, query, path);
    } else {
      var host := query[at.value + 1..];
      var userinfo := authority + query[..at.value];
      FindLastIsLast(query, '@');
      assert authority + query + path == userinfo + "@" + host + path;
      assert Lacks(userinfo, {'/'});
      HidesUserInfo(userinfo, host, path);
      SameAfter(scheme + SEPARATOR, RedactRest(userinfo + "@" + host + path), userinfo + "@" + host + path);
    }
  }

  lemma SameAfter(head: string, redacted: Option<string>, rest: string)
    ensures redacted.Some? ==> (head + redacted.value == head + rest <==> redacted.value == rest)
  {
    if redacted.Some? && head + redacted.value == head + rest {
      assert (head + redacted.value)[|head|..] == redacted.value;
      assert (head + rest)[|head|..] == rest;
    }
  }

  /** What is redacted with the last '@' after `userinfo`. */
  lemma HidesUserInfo(userinfo: string, host: string, path: string)
    requires Lacks(userinfo, {'/'}) && Lacks(host, {'@', '/'}) && (path != [] ==> path[0] == '/')
    ensures var r := RedactRest(userinfo + "@" + host + path);
      && (Lacks(userinfo, {':'}) ==> r.None?)
      && (!Lacks(userinfo, {':'}) ==>
            r.Some? && (r.value == userinfo + "@" + host + path <==> userinfo[FindColon(userinfo)..] == ":***"))
  {
    var colon := FindColon(userinfo);
    FindAnyIsFirst(userinfo, {':'});
    if colon < |userinfo| {
      var user := userinfo[..colon];
      RedactsUserInfo(user, userinfo, host, path);
      MaskedAlready(user, userinfo[colon..], "@" + host + path);
      Regroup(userinfo, colon, host, path);
    } else {
      NoColonKept(userinfo, host, path);
    }
  }

  lemma Regroup(userinfo: string, colon: nat, host: string, path: string)
    requires colon <= |userinfo|
    ensures userinfo + "@" + host + path == userinfo[..colon] + userinfo[colon..] + ("@" + host + path)
  {
  }

  lemma NoColonKept(userinfo: string, host: string, path: string)
    requires Lacks(userinfo, {':'}) && Lacks(userinfo, {'/'})
    requires Lacks(host, {'@', '/'}) && (path != [] ==> path[0] == '/')
    ensures RedactRest(userinfo + "@" + host + path).None?
  {
    FindAnyAt(userinfo, {':'}, |userinfo|);
    AuthorityOf(userinfo + "@" + host, path, {'/'});
    UserInfoOf(userinfo, host);
    TailOf(userinfo, host, path);
  }

  lemma MaskedAlready(user: string, tail: string, rest: string)
    ensures user + ":***" + rest == user + tail + rest <==> tail == ":***"
  {
    if user + ":***" + rest == user + tail + rest {
      assert |tail| == 4;
      assert (user + ":***" + rest)[|user|..|user| + 4] == ":***";
      assert (user + tail + rest)[|user|..|user| + 4] == tail;
    }
  }

  lemma NothingToHide(authority: string, query: string, path: string)
    requires Lacks(authority, {'/'}) && Lacks(query, {'/', '@'}) && (path != [] ==> path[0] == '/')
    requires !HasPassword(authority)
    ensures RedactRest(authority + query + path).None?
  {
    AuthorityOf(authority + query, path, {'/'});
    FindLastAppend(authority, query);
    var at := FindLast(authority, '@');
    if at.Some? {
      CutAppended(authority + query, path, at.value);
      CutAppended(authority, query, at.value);
      FindAnyAt(authority[..at.value], {':'}, at.value);
    }
  }

  lemma {:induction false} FindLastAppend(a: string, b: string)
    requires Lacks(b, {'@'})
    ensures FindLast(a + b, '@') == FindLast(a, '@')
  {
    if b == [] {
      assert a + b == a;
    } else {
      assert (a + b)[..|a + b| - 1] == a + b[..|b| - 1];
      FindLastAppend(a, b[..|b| - 1]);
    }
  }

  /** One such URL: its port and its query are taken for a password. */
  lemma PortHiddenExample()
    ensures RedactUrl("db://h:5?@b") == "db://h:***@b"
  {
    PortHidden();
    Spelling();
    RedactsRest("db" + SEPARATOR + "h:5?@b", "db", "h:5?@b");
  }

  lemma Spelling()
    ensures "db" + SEPARATOR + "h:5?@b" == "db://h:5?@b"
    ensures "db" + SEPARATOR + "h:***@b" == "db://h:***@b"
  {
  }

  lemma PortHidden()
    ensures RedactRest("h:5?@b") == Some("h:***@b")
  {
    FindAnyAt("h:5?", {':'}, 1);
    RedactsUserInfo("h", "h:5?", "b", "");
    assert "h:5?" + "@" + "b" + "" == "h:5?@b";
    assert "h" + ":***" + ("@" + "b" + "") == "h:***@b";
  }

  // ---------------------------------------------------------------- scheme and host only

  /** The shown part depends only on scheme, host and whether anything but "/" follows. */
  function Shown(scheme: string, host: string, follows: bool): string {
    scheme + SEPARATOR + host + if follows then "/***" else ""
  }

  ghost predicate ValidHost(scheme: string, host: string, suffix: string) {
    && NoSeparator(scheme)
    && Lacks(host, {'@', '/', '?', '#'})
    && (suffix != [] ==> suffix[0] in {'/', '?', '#'})
  }

  lemma PathOf(scheme: string, authority: string, host: string, suffix: string)
    requires ValidHost(scheme, host, suffix) && Lacks(authority, {'/', '?', '#'})
    requires authority == host || exists userinfo :: authority == userinfo + "@" + host
    ensures RedactUrlPath(scheme + SEPARATOR + (authority + suffix))
         == Shown(scheme, host, suffix != "" && suffix != "/")
  {
    SeparatorOf(scheme, authority + suffix);
    AuthorityOf(authority, suffix, {'/', '?', '#'});
    if authority == host {
      FindLastIsLast(authority, '@');
      assert FindLast(authority, '@').None?;
    } else {
      var userinfo :| authority == userinfo + "@" + host;
      UserInfoOf(userinfo, host);
    }
    assert scheme + SEPARATOR + host + "" == scheme + SEPARATOR + host;
  }

  /** Credentials, path and query do not show. */
  lemma OnlySchemeAndHostShow(scheme: string, userinfo: string, host: string, suffix: string)
    requires ValidHost(scheme, host, suffix) && Lacks(userinfo, {'/', '?', '#'})
    ensures var follows := suffix != "" && suffix != "/";
      && RedactUrlPath(scheme + SEPARATOR + (userinfo + "@" + host + suffix)) == Shown(scheme, host, follows)
      && RedactUrlPath(scheme + SEPARATOR + (host + suffix)) == Shown(scheme, host, follows)
  {
    PathOf(scheme, userinfo + "@" + host, host, suffix);
    PathOf(scheme, host, host, suffix);
  }

  /** A text that is no URL: nothing of it is shown as a host, and there is no password to hide. */
  lemma WithoutSeparator(text: string)
    ensures NoSeparator(text) <==> FindSeparator(text).None?
    ensures NoSeparator(text) ==> RedactUrlPath(text) == "***" && RedactUrl(text) == text
  {
    FindSeparatorIsFirst(text, 0);
    if FindSeparator(text).None? {
      forall i: nat ensures !SeparatorAt(text, i) {}
    }
  }

  /** Every URL is shown as its scheme and a host. */
  lemma ShownForm(url: string) returns (scheme: string, host: string, follows: bool)
    requires FindSeparator(url).Some?
    ensures url[..FindSeparator(url).value] == scheme
    ensures ValidHost(scheme, host, "") && RedactUrlPath(url) == Shown(scheme, host, follows)
  {
    var sep := FindSeparator(url).value;
    var rest := url[sep + 3..];
    var end := FindAny(rest, {'/', '?', '#'});
    scheme, host, follows := url[..sep], HostOf(rest[..end]), end != |rest| && rest[end..] != "/";
    NothingAppended(scheme + SEPARATOR + host);
    ShownParts(url, sep);
  }

  /** What follows the last '@' of an authority. */
  function HostOf(authority: string): string {
    var at := FindLast(authority, '@');
    if at.Some? then authority[at.value + 1..] else authority
  }

  lemma ShownParts(url: string, sep: nat)
    requires FindSeparator(url) == Some(sep)
    ensures var rest := url[sep + 3..];
      ValidHost(url[..sep], HostOf(rest[..FindAny(rest, {'/', '?', '#'})]), "")
  {
    SchemeHasNoSeparator(url);
    HostLacks(url[sep + 3..]);
  }

  lemma NothingAppended(s: string)
    ensures s + "" == s
  {
  }

  /** What stands between the last '@' of the authority and the path. */
  lemma HostLacks(rest: string)
    ensures Lacks(HostOf(rest[..FindAny(rest, {'/', '?', '#'})]), {'@', '/', '?', '#'})
  {
    FindAnyIsFirst(rest, {'/', '?', '#'});
    FindLastIsLast(rest[..FindAny(rest, {'/', '?', '#'})], '@');
  }

  lemma RedactUrlPathIdempotent(url: string)
    ensures RedactUrlPath(RedactUrlPath(url)) == RedactUrlPath(url)
  {
    if FindSeparator(url).None? {
      FindSeparatorIsFirst("***", 0);
    } else {
      var scheme, host, follows := ShownForm(url);
      var suffix := if follows then "/***" else "";
      PathOf(scheme, host, host, suffix);
      Associate(scheme + SEPARATOR, host, suffix);
    }
  }
}
