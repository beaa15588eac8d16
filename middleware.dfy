/** `RoleBasedAccessMiddleware` and `SecurityHeadersMiddleware`: which requests reach
    their view without a login, and the headers added to every response. */
module Middleware {
  import opened Wrappers
  import opened Text

  // ---------------------------------------------------------------------------
  // `re.match` for the patterns the exemption list uses

  /** One element of a compiled pattern. Only '.', '^' and '$' are special in the listed
      entries; every other character stands for itself. */
  datatype Atom = Literal(c: char) | AnyChar | StartAnchor | EndAnchor

  function AtomOf(c: char): Atom {
    if c == '.' then AnyChar else if c == '^' then StartAnchor else if c == '$' then EndAnchor else Literal(c)
  }

  function Compile(p: string): (atoms: seq<Atom>)
    ensures |atoms| == |p|
  {
    if p == [] then [] else [AtomOf(p[0])] + Compile(p[1..])
  }

  /** A pattern without any of the three special characters. */
  predicate Plain(p: string) {
    forall i :: 0 <= i < |p| ==> p[i] != '.' && p[i] != '^' && p[i] != '$'
  }

  /** Does the pattern match `s` from position `pos` on (the rest of `s` may remain)?
      '.' is any character but a newline, '^' holds only at the very start, and '$' at the
      end or just before a final newline. */
  function MatchFrom(atoms: seq<Atom>, s: string, pos: nat): bool
    decreases |atoms|
  {
    if atoms == [] then true
    else
      var rest := atoms[1..];
      match atoms[0]
      case Literal(c) => pos < |s| && s[pos] == c && MatchFrom(rest, s, pos + 1)
      case AnyChar => pos < |s| && s[pos] != '\n' && MatchFrom(rest, s, pos + 1)
      case StartAnchor => pos == 0 && MatchFrom(rest, s, pos)
      case EndAnchor => (pos == |s| || (pos + 1 == |s| && s[pos] == '\n')) && MatchFrom(rest, s, pos)
  }

  /** `re.match(pattern, s)` is truthy. */
  predicate ReMatch(pattern: string, s: string) {
    MatchFrom(Compile(pattern), s, 0)
  }

  lemma {:induction false} CompileAppend(a: string, b: string)
    ensures Compile(a + b) == Compile(a) + Compile(b)
    decreases |a|
  {
    if a != [] {
      assert (a + b)[0] == a[0];
      assert (a + b)[1..] == a[1..] + b;
      CompileAppend(a[1..], b);
      assert Compile(a + b) == [AtomOf(a[0])] + Compile(a[1..] + b);
      assert Compile(a) == [AtomOf(a[0])] + Compile(a[1..]);
    } else {
      assert a + b == b;
    }
  }

  lemma CompilePlainHead(p: string, rest: seq<Atom>)
    requires Plain(p) && p != []
    ensures (Compile(p) + rest)[0] == Literal(p[0])
  {
    assert p[0] != '.' && p[0] != '^' && p[0] != '$';
  }

  lemma CompileTail(p: string, rest: seq<Atom>)
    requires p != []
    ensures (Compile(p) + rest)[1..] == Compile(p[1..]) + rest
  {
    var head, tail := AtomOf(p[0]), Compile(p[1..]);
    assert Compile(p) == [head] + tail;
    assert [head] + tail + rest == [head] + (tail + rest);
  }

  lemma PlainTail(p: string)
    requires Plain(p) && p != []
    ensures Plain(p[1..])
  {
    forall i | 0 <= i < |p[1..]|
      ensures p[1..][i] != '.' && p[1..][i] != '^' && p[1..][i] != '$'
    {
      assert p[1..][i] == p[i + 1];
    }
  }

  lemma SliceCons(s: string, pos: nat, p: string)
    requires p != [] && pos + |p| <= |s|
    ensures (s[pos..pos + |p|] == p) <==> (s[pos] == p[0] && s[pos + 1..pos + |p|] == p[1..])
  {
    assert s[pos..pos + |p|] == [s[pos]] + s[pos + 1..pos + |p|];
    assert p == [p[0]] + p[1..];
  }

  /** A plain pattern matches exactly its own text at `pos`, then the rest of the pattern
      goes on after it. */
  lemma {:induction false} PlainThen(p: string, rest: seq<Atom>, s: string, pos: nat)
    requires Plain(p) && pos <= |s|
    ensures MatchFrom(Compile(p) + rest, s, pos) <==>
      pos + |p| <= |s| && s[pos..pos + |p|] == p && MatchFrom(rest, s, pos + |p|)
    decreases |p|
  {
    if p == [] {
      assert Compile(p) + rest == rest;
      assert s[pos..pos] == p;
    } else {
      var atoms := Compile(p) + rest;
      CompilePlainHead(p, rest);
      CompileTail(p, rest);
      PlainTail(p);
      assert MatchFrom(atoms, s, pos) ==
        (pos < |s| && s[pos] == p[0] && MatchFrom(Compile(p[1..]) + rest, s, pos + 1));
      if pos < |s| {
        PlainThen(p[1..], rest, s, pos + 1);
        if pos + |p| <= |s| {
          SliceCons(s, pos, p);
        }
      }
    }
  }

  /** For a plain pattern `re.match` is `startswith`. */
  lemma PlainMatchIsPrefix(p: string, s: string)
    requires Plain(p)
    ensures ReMatch(p, s) <==> StartsWith(s, p)
  {
    PlainThen(p, [], s, 0);
    assert Compile(p) + [] == Compile(p);
  }

  // ---------------------------------------------------------------------------
  // RoleBasedAccessMiddleware

  const AlwaysAccessible: seq<string> :=
    ["/login/", "/logout/", "/django-admin/", "/admin/", "/static/", "/media/", "/favicon.ico", "^$"]

  /** `re.match(entry, path) or path.startswith(entry)`. */
  predicate EntryAdmits(entry: string, path: string) {
    ReMatch(entry, path) || StartsWith(path, entry)
  }

  /** `any(...)` over the entries, first to last. */
  function AnyAdmits(entries: seq<string>, path: string): (r: bool)
    ensures r <==> exists i :: 0 <= i < |entries| && EntryAdmits(entries[i], path)
  {
    if entries == [] then false
    else EntryAdmits(entries[0], path) || AnyAdmits(entries[1..], path)
  }

  predicate IsExempt(path: string) {
    AnyAdmits(AlwaysAccessible, path)
  }

  lemma AnyAdmitsEight(e0: string, e1: string, e2: string, e3: string, e4: string, e5: string, e6: string, e7: string, path: string)
    ensures AnyAdmits([e0, e1, e2, e3, e4, e5, e6, e7], path) <==>
      EntryAdmits(e0, path) || EntryAdmits(e1, path) || EntryAdmits(e2, path) || EntryAdmits(e3, path) ||
      EntryAdmits(e4, path) || EntryAdmits(e5, path) || EntryAdmits(e6, path) || EntryAdmits(e7, path)
  {
    var es := [e0, e1, e2, e3, e4, e5, e6, e7];
    assert es[1..] == [e1, e2, e3, e4, e5, e6, e7];
    assert [e1, e2, e3, e4, e5, e6, e7][1..] == [e2, e3, e4, e5, e6, e7];
    assert [e2, e3, e4, e5, e6, e7][1..] == [e3, e4, e5, e6, e7];
    assert [e3, e4, e5, e6, e7][1..] == [e4, e5, e6, e7];
    assert [e4, e5, e6, e7][1..] == [e5, e6, e7];
    assert [e5, e6, e7][1..] == [e6, e7];
    assert [e6, e7][1..] == [e7];
    assert AnyAdmits([e7], path) == EntryAdmits(e7, path);
    assert AnyAdmits([e6, e7], path) == (EntryAdmits(e6, path) || AnyAdmits([e7], path));
    assert AnyAdmits([e5, e6, e7], path) == (EntryAdmits(e5, path) || AnyAdmits([e6, e7], path));
    assert AnyAdmits([e4, e5, e6, e7], path) == (EntryAdmits(e4, path) || AnyAdmits([e5, e6, e7], path));
    assert AnyAdmits([e3, e4, e5, e6, e7], path) == (EntryAdmits(e3, path) || AnyAdmits([e4, e5, e6, e7], path));
    assert AnyAdmits([e2, e3, e4, e5, e6, e7], path) == (EntryAdmits(e2, path) || AnyAdmits([e3, e4, e5, e6, e7], path));
    assert AnyAdmits([e1, e2, e3, e4, e5, e6, e7], path) == (EntryAdmits(e1, path) || AnyAdmits([e2, e3, e4, e5, e6, e7], path));
    assert AnyAdmits(es, path) == (EntryAdmits(e0, path) || AnyAdmits([e1, e2, e3, e4, e5, e6, e7], path));
  }

  /** What `head + "." + tail` admits as an entry: the head, one character other than a
      newline, then the tail, at the start of the path. */
  predicate DotLike(head: string, tail: string, path: string) {
    && |head| + 1 + |tail| <= |path| && path[..|head|] == head && path[|head|] != '\n'
    && path[|head| + 1..|head| + 1 + |tail|] == tail
  }

  /** The exempt paths described without patterns. */
  predicate ExemptRule(path: string) {
    || StartsWith(path, "/login/") || StartsWith(path, "/logout/")
    || StartsWith(path, "/django-admin/") || StartsWith(path, "/admin/")
    || StartsWith(path, "/static/") || StartsWith(path, "/media/")
    || DotLike("/favicon", "ico", path)
    || path == "" || path == "\n" || StartsWith(path, "^$")
  }

  lemma PlainEntry(entry: string, path: string)
    requires Plain(entry)
    ensures EntryAdmits(entry, path) <==> StartsWith(path, entry)
  {
    PlainMatchIsPrefix(entry, path);
  }

  /** A pattern with one dot between two plain parts: the head, one character other than
      a newline, then the tail. */
  lemma DotBetween(head: string, tail: string, path: string)
    requires Plain(head) && Plain(tail)
    ensures ReMatch(head + "." + tail, path) <==>
      && |head| + 1 + |tail| <= |path| && path[..|head|] == head && path[|head|] != '\n'
      && path[|head| + 1..|head| + 1 + |tail|] == tail
  {
    CompileAppend(head + ".", tail);
    CompileAppend(head, ".");
    assert Compile(".") == [AnyChar];
    var rest := [AnyChar] + Compile(tail);
    assert Compile(head + "." + tail) == Compile(head) + rest;
    PlainThen(head, rest, path, 0);
    assert rest[1..] == Compile(tail) + [];
    if |head| < |path| {
      PlainThen(tail, [], path, |head| + 1);
    }
  }

  /** Where the text of a dotted pattern is a prefix, the pattern matches too. */
  lemma PrefixOfDotted(head: string, tail: string, path: string)
    requires StartsWith(path, head + "." + tail)
    ensures path[..|head|] == head && path[|head|] == '.' && path[|head| + 1..|head| + 1 + |tail|] == tail
  {
    var whole := head + "." + tail;
    assert path[..|head|] == whole[..|head|];
    assert path[|head| + 1..|head| + 1 + |tail|] == whole[|head| + 1..];
  }

  lemma DotEntry(head: string, tail: string, path: string)
    requires Plain(head) && Plain(tail)
    ensures EntryAdmits(head + "." + tail, path) <==> DotLike(head, tail, path)
  {
    DotBetween(head, tail, path);
    if StartsWith(path, head + "." + tail) {
      PrefixOfDotted(head, tail, path);
    }
  }

  /** The list's shape: six plain prefixes, one pattern with a dot, and a last entry. */
  lemma AdmitsByRule(e0: string, e1: string, e2: string, e3: string, e4: string, e5: string,
                     head: string, tail: string, e7: string, path: string)
    requires Plain(e0) && Plain(e1) && Plain(e2) && Plain(e3) && Plain(e4) && Plain(e5)
    requires Plain(head) && Plain(tail)
    ensures AnyAdmits([e0, e1, e2, e3, e4, e5, head + "." + tail, e7], path) <==>
      || StartsWith(path, e0) || StartsWith(path, e1) || StartsWith(path, e2)
      || StartsWith(path, e3) || StartsWith(path, e4) || StartsWith(path, e5)
      || DotLike(head, tail, path) || EntryAdmits(e7, path)
  {
    AnyAdmitsEight(e0, e1, e2, e3, e4, e5, head + "." + tail, e7, path);
    PlainEntry(e0, path);
    PlainEntry(e1, path);
    PlainEntry(e2, path);
    PlainEntry(e3, path);
    PlainEntry(e4, path);
    PlainEntry(e5, path);
    DotEntry(head, tail, path);
  }

  lemma EmptyEntry(path: string)
    ensures EntryAdmits("^$", path) <==> path == "" || path == "\n" || StartsWith(path, "^$")
  {
    assert Compile("^$") == [StartAnchor, EndAnchor];
    assert [StartAnchor, EndAnchor][1..] == [EndAnchor];
    assert [EndAnchor][1..] == [];
    if path == "\n" {
      assert path[0] == '\n';
    }
  }

  /** The exemption list admits exactly: the six directory prefixes, anything shaped like
      '/favicon.ico' with any character in place of the dot, the empty path, a lone newline,
      and (taken literally by `startswith`) paths beginning with "^$". */
  lemma ExemptExactly(path: string)
    ensures IsExempt(path) <==> ExemptRule(path)
  {
    assert "/favicon.ico" == "/favicon" + "." + "ico";
    assert AlwaysAccessible == ["/login/", "/logout/", "/django-admin/", "/admin/", "/static/", "/media/", "/favicon" + "." + "ico", "^$"];
    AdmitsByRule("/login/", "/logout/", "/django-admin/", "/admin/", "/static/", "/media/", "/favicon", "ico", "^$", path);
    EmptyEntry(path);
  }

  /** A one-character path other than a newline, the home page '/' among them, is not
      exempt: the '^$' entry admits only the empty path and a lone newline. */
  lemma SingleCharNotExempt(path: string)
    requires |path| == 1 && path[0] != '\n'
    ensures !IsExempt(path)
  {
    ExemptExactly(path);
  }

  /** The unescaped dot lets look-alikes of the favicon through: any character but a
      newline may stand where the dot is. */
  lemma FaviconLookalikeExempt(c: char)
    requires c != '\n'
    ensures IsExempt("/favicon" + [c] + "ico")
  {
    var path := "/favicon" + [c] + "ico";
    assert path[..8] == "/favicon" && path[8] == c && path[9..12] == "ico";
    assert DotLike("/favicon", "ico", path);
    ExemptExactly(path);
  }

  /** What the middleware does with a request. */
  datatype Decision = PassThrough | RedirectToLogin

  /** `RoleBasedAccessMiddleware.__call__`; the view behind it is not modelled. */
  function Decide(path: string, authenticated: bool): (d: Decision)
    ensures IsExempt(path) || authenticated ==> d == PassThrough
  {
    if IsExempt(path) then PassThrough
    else if !authenticated then (if StartsWith(path, "/api/") then PassThrough else RedirectToLogin)
    else PassThrough
  }

  /** A request is sent to the login page exactly when it comes without a login, for a path
      outside the exemption rule that is not under '/api/'. */
  lemma RedirectExactly(path: string, authenticated: bool)
    ensures Decide(path, authenticated) == RedirectToLogin <==>
      !authenticated && !ExemptRule(path) && !StartsWith(path, "/api/")
  {
    ExemptExactly(path);
  }

  /** An anonymous request for a one-character path other than a newline, such as the
      home page '/', is sent to the login page. */
  lemma AnonymousSingleCharRedirected(path: string)
    requires |path| == 1 && path[0] != '\n'
    ensures Decide(path, false) == RedirectToLogin
  {
    SingleCharNotExempt(path);
  }

  // ---------------------------------------------------------------------------
  // SecurityHeadersMiddleware

  /** The four headers and their values, in the order they are set. */
  const SecurityHeaders: seq<(string, string)> := [
    ("X-Frame-Options", "DENY"),
    ("X-Content-Type-Options", "nosniff"),
    ("Referrer-Policy", "strict-origin-when-cross-origin"),
    ("Permissions-Policy", "geolocation=(self), camera=(self)")
  ]

  /** Setting headers one after another; header names compare without regard to case. */
  function SetAll(headers: map<string, string>, pairs: seq<(string, string)>): map<string, string>
    decreases |pairs|
  {
    if pairs == [] then headers else SetAll(headers[Lower(pairs[0].0) := pairs[0].1], pairs[1..])
  }

  ghost predicate LastWins(headers: map<string, string>, pairs: seq<(string, string)>, key: string)
    requires key in SetAll(headers, pairs)
  {
    exists i :: 0 <= i < |pairs| && Lower(pairs[i].0) == key && SetAll(headers, pairs)[key] == pairs[i].1
      && forall j :: i < j < |pairs| ==> Lower(pairs[j].0) != key
  }

  /** After setting, a name takes the value of the last pair naming it; other names keep
      theirs. */
  lemma {:induction false} SetAllLookup(headers: map<string, string>, pairs: seq<(string, string)>, key: string)
    ensures (exists i :: 0 <= i < |pairs| && Lower(pairs[i].0) == key) ==>
      key in SetAll(headers, pairs) && LastWins(headers, pairs, key)
    ensures (forall i :: 0 <= i < |pairs| ==> Lower(pairs[i].0) != key) ==>
      (key in SetAll(headers, pairs) <==> key in headers) && (key in headers ==> SetAll(headers, pairs)[key] == headers[key])
    decreases |pairs|
  {
    if pairs != [] {
      var h1 := headers[Lower(pairs[0].0) := pairs[0].1];
      SetAllLookup(h1, pairs[1..], key);
      if exists i :: 0 <= i < |pairs[1..]| && Lower(pairs[1..][i].0) == key {
        var i :| 0 <= i < |pairs[1..]| && Lower(pairs[1..][i].0) == key && SetAll(h1, pairs[1..])[key] == pairs[1..][i].1
          && forall j :: i < j < |pairs[1..]| ==> Lower(pairs[1..][j].0) != key;
        assert Lower(pairs[i + 1].0) == key;
        forall j | i + 1 < j < |pairs| ensures Lower(pairs[j].0) != key {
          assert pairs[j] == pairs[1..][j - 1];
        }
      } else if Lower(pairs[0].0) == key {
        forall j | 0 < j < |pairs| ensures Lower(pairs[j].0) != key {
          assert pairs[j] == pairs[1..][j - 1];
        }
      } else {
        forall i | 0 <= i < |pairs| ensures Lower(pairs[i].0) != key {
          if i > 0 {
            assert pairs[i] == pairs[1..][i - 1];
          }
        }
      }
    }
  }

  /** Headers set twice in the same order end as they were after the first time: for every
      name the last pair naming it wins both times. */
  lemma SetAllIdempotent(headers: map<string, string>, pairs: seq<(string, string)>)
    ensures SetAll(SetAll(headers, pairs), pairs) == SetAll(headers, pairs)
  {
    var once := SetAll(headers, pairs);
    var twice := SetAll(once, pairs);
    forall key | key in once || key in twice
      ensures key in once && key in twice && twice[key] == once[key]
    {
      SetAllLookup(headers, pairs, key);
      SetAllLookup(once, pairs, key);
      if exists i :: 0 <= i < |pairs| && Lower(pairs[i].0) == key {
        var i :| 0 <= i < |pairs| && Lower(pairs[i].0) == key && once[key] == pairs[i].1
          && forall j :: i < j < |pairs| ==> Lower(pairs[j].0) != key;
        var i2 :| 0 <= i2 < |pairs| && Lower(pairs[i2].0) == key && twice[key] == pairs[i2].1
          && forall j :: i2 < j < |pairs| ==> Lower(pairs[j].0) != key;
        assert i == i2;
      }
    }
  }

  lemma SetAllFour(headers: map<string, string>, a: (string, string), b: (string, string), c: (string, string), d: (string, string))
    ensures SetAll(headers, [a, b, c, d]) ==
      headers[Lower(a.0) := a.1][Lower(b.0) := b.1][Lower(c.0) := c.1][Lower(d.0) := d.1]
  {
    var ps := [a, b, c, d];
    var h1 := headers[Lower(a.0) := a.1];
    var h2 := h1[Lower(b.0) := b.1];
    var h3 := h2[Lower(c.0) := c.1];
    var h4 := h3[Lower(d.0) := d.1];
    assert ps[1..] == [b, c, d];
    assert [b, c, d][1..] == [c, d];
    assert [c, d][1..] == [d];
    assert [d][1..] == [];
    assert SetAll(h4, []) == h4;
    assert SetAll(h3, [d]) == SetAll(h4, []);
    assert SetAll(h2, [c, d]) == SetAll(h3, [d]);
    assert SetAll(h1, [b, c, d]) == SetAll(h2, [c, d]);
    assert SetAll(headers, ps) == SetAll(h1, [b, c, d]);
  }

  /** The middleware sets the four header names, compared without regard to case, to their
      fixed values and leaves every other header as the view set it. */
  lemma SecurityHeadersSet(headers: map<string, string>)
    ensures SetAll(headers, SecurityHeaders) ==
      headers[Lower("X-Frame-Options") := "DENY"][Lower("X-Content-Type-Options") := "nosniff"]
             [Lower("Referrer-Policy") := "strict-origin-when-cross-origin"]
             [Lower("Permissions-Policy") := "geolocation=(self), camera=(self)"]
  {
    var a, b := ("X-Frame-Options", "DENY"), ("X-Content-Type-Options", "nosniff");
    var c, d := ("Referrer-Policy", "strict-origin-when-cross-origin"), ("Permissions-Policy", "geolocation=(self), camera=(self)");
    assert SecurityHeaders == [a, b, c, d];
    SetAllFour(headers, a, b, c, d);
  }

  /** An HTTP response whose headers are written in place. Header names are stored lower
      case, since they are looked up without regard to case. */
  class Response {
    var status: int
    var content: string
    var headers: map<string, string>

    constructor (status: int, content: string, headers: map<string, string>)
      ensures this.status == status && this.content == content && this.headers == headers
    {
      this.status := status;
      this.content := content;
      this.headers := headers;
    }

    /** `response[name]`, or `None` when the header is absent. */
    function Header(name: string): Option<string>
      reads this
    {
      if Lower(name) in headers then Some(headers[Lower(name)]) else None
    }

    /** `response[name] = value`. */
    method SetHeader(name: string, value: string)
      modifies this
      ensures headers == old(headers)[Lower(name) := value]
      ensures status == old(status) && content == old(content)
    {
      headers := headers[Lower(name) := value];
    }
  }

  /** `SecurityHeadersMiddleware.__call__` on the response the view returned. */
  method AddSecurityHeaders(response: Response)
    modifies response
    ensures response.headers == SetAll(old(response.headers), SecurityHeaders)
    ensures response.status == old(response.status) && response.content == old(response.content)
  {
    response.SetHeader(SecurityHeaders[0].0, SecurityHeaders[0].1);
    response.SetHeader(SecurityHeaders[1].0, SecurityHeaders[1].1);
    response.SetHeader(SecurityHeaders[2].0, SecurityHeaders[2].1);
    response.SetHeader(SecurityHeaders[3].0, SecurityHeaders[3].1);
    SetAllFour(old(response.headers), SecurityHeaders[0], SecurityHeaders[1], SecurityHeaders[2], SecurityHeaders[3]);
    assert SecurityHeaders == [SecurityHeaders[0], SecurityHeaders[1], SecurityHeaders[2], SecurityHeaders[3]];
  }
}
