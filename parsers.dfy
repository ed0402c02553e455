/** `BaseParser`, the abstract document parser: its construction from an
    HTTP response, the regular-expression fallback that collects URLs from
    raw text into `_re_urls`, and the capability getters that concrete
    parsers override. */
module Parsers {
  import opened Wrappers
  import opened UrlDecoder
  import UrlScanner

  /** The `URL` class as the parser uses it; its code is not part of this
      model. `build(t, enc)` is `URL(t, encoding=enc)`, None when that raises
      `ValueError`; `normalize(u)` is the value of `u` after
      `u.normalize_url()`; `domain` and `rootDomain` are `get_domain()` and
      `get_root_domain()`. Nothing is assumed about any of them. */
  datatype UrlLib<!U> = UrlLib(
    build: (string, Charset) -> Option<U>,
    normalize: U -> U,
    domain: U -> string,
    rootDomain: U -> string)

  /** What the constructor reads from the HTTP response: `get_url()`,
      `get_redir_url()` (None when there was no redirect) and
      `get_charset()`. */
  datatype Response<U> = Response(url: U, redirUrl: Option<U>, charset: Charset)

  /** The exceptions the base class raises. */
  datatype ParserError =
    | UnknownEncoding(charset: Charset)   // ValueError('Unknown encoding: ...')
    | NotImplementedError(name: string)   // raised by every base-class getter

  /** The capability getters of the base class. */
  datatype Capability = Forms | References | Emails | Comments | Scripts | MetaRedir | MetaTags

  /** The Python name of a getter. */
  function MethodName(c: Capability): string
  {
    match c
    case Forms => "get_forms"
    case References => "get_references"
    case Emails => "get_emails"
    case Comments => "get_comments"
    case Scripts => "get_scripts"
    case MetaRedir => "get_meta_redir"
    case MetaTags => "get_meta_tags"
  }

  /** How a concrete parser provides a getter: it keeps the base class's,
      or binds it to `_return_empty_list` (`get_forms = _return_empty_list`). */
  datatype Binding = Inherited | EmptyList

  /** The effective base URL: the redirect target when there was a
      redirect, the response URL otherwise. */
  function BaseUrlOf<U>(resp: Response<U>): (u: U)
    ensures resp.redirUrl.Some? ==> u == resp.redirUrl.value
    ensures resp.redirUrl.None? ==> u == resp.url
  {
    match resp.redirUrl
    case Some(r) => r
    case None => resp.url
  }

  /** Everything the regular-expression pass needs besides the text: the
      codecs, the `URL` class and the page charset `_encoding`. */
  datatype Context<!U> = Context(codecs: Codecs, lib: UrlLib<U>, charset: Charset)

  /** The body of the `try` in `_regex_url_parse`: decode the candidate,
      then build a `URL` from it. None when either step raises `ValueError`. */
  function BuildUrl<U>(ctx: Context<U>, candidate: string): (r: Option<U>)
    ensures var d := DecodeUrl(ctx.codecs, ctx.charset, Unicode(candidate));
      r.Some? <==> d.Some? && ctx.lib.build(d.value, ctx.charset).Some?
    ensures r.Some? ==> r == ctx.lib.build(DecodeUrl(ctx.codecs, ctx.charset, Unicode(candidate)).value, ctx.charset)
  {
    match DecodeUrl(ctx.codecs, ctx.charset, Unicode(candidate))
    case None => None
    case Some(text) => ctx.lib.build(text, ctx.charset)
  }

  /** `re_urls.add(u)` on the members of the set. */
  function Add<U(==)>(members: seq<U>, u: U): (r: seq<U>)
    ensures members <= r && u in r
    ensures |r| <= |members| + 1
    ensures forall i :: 0 <= i < |r| ==> r[i] in members || r[i] == u
    ensures Distinct(members) ==> Distinct(r)
  {
    if u in members then members else members + [u]
  }

  /** The step `BuildUrl` as a function value, for the specification of the
      loop below. */
  function Builder<U>(ctx: Context<U>): string -> Option<U>
  {
    c => BuildUrl(ctx, c)
  }

  /** The members of `_re_urls` after the loop of `_regex_url_parse` has run
      over `candidates`, starting from `members`: every candidate that
      builds a URL adds it, every other candidate is skipped. */
  function Collect<U(==)>(build: string -> Option<U>, members: seq<U>, candidates: seq<string>): (r: seq<U>)
    ensures members <= r
    decreases |candidates|
  {
    if candidates == [] then members
    else
      var before := Collect(build, members, candidates[..|candidates| - 1]);
      match build(candidates[|candidates| - 1])
      case None => before
      case Some(u) => Add(before, u)
  }

  /** `Builder(ctx)` applied to a candidate is the `try` body. */
  lemma BuilderStep<U>(ctx: Context<U>, c: string)
    ensures var d := DecodeUrl(ctx.codecs, ctx.charset, Unicode(c));
      Builder(ctx)(c) == if d.Some? then ctx.lib.build(d.value, ctx.charset) else None
  {
  }

  /** One more turn of the loop: candidate `cs[i]` is added when it builds a
      URL and skipped otherwise. */
  lemma CollectSnoc<U>(build: string -> Option<U>, members: seq<U>, cs: seq<string>, i: nat)
    requires i < |cs|
    ensures Collect(build, members, cs[..i + 1]) ==
      if build(cs[i]).Some? then Add(Collect(build, members, cs[..i]), build(cs[i]).value)
      else Collect(build, members, cs[..i])
  {
    assert cs[..i + 1][..i] == cs[..i];
  }

  /** The members after `normalize_url()` has been called on each of them. */
  function NormalizeAll<U>(lib: UrlLib<U>, members: seq<U>): (r: seq<U>)
    ensures |r| == |members|
    ensures forall k :: 0 <= k < |members| ==> r[k] == lib.normalize(members[k])
  {
    seq(|members|, k requires 0 <= k < |members| => lib.normalize(members[k]))
  }

  /** True when no member occurs twice. */
  predicate Distinct<U(==)>(members: seq<U>)
  {
    forall i, j :: 0 <= i < j < |members| ==> members[i] != members[j]
  }

  class BaseParser<U(==)> {
    /** The codec library and the `URL` class the parser calls. */
    const codecs: Codecs
    const lib: UrlLib<U>

    /** `_base_url`, `_baseDomain`, `_rootDomain` and `_encoding`: set by
        `__init__` and never reassigned. */
    const baseUrl: U
    const baseDomain: string
    const rootDomain: string
    const encoding: Charset
    /** The members of the set `_re_urls`. */
    var reUrls: seq<U>

    /** What construction establishes and every method keeps: the charset
        is a known encoding, so encoding a candidate with it cannot raise
        `LookupError`, and the domains are those of the base URL. */
    ghost predicate Valid()
    {
      codecs.isKnown(encoding)
      && baseDomain == lib.domain(baseUrl)
      && rootDomain == lib.rootDomain(baseUrl)
    }

    /** The context the regular-expression pass runs in. */
    function Ctx(): Context<U>
    {
      Context(codecs, lib, encoding)
    }

    /** `__init__` once the charset is known to be supported: base URL,
        domains and charset from the response, and an empty `_re_urls`. */
    constructor (resp: Response<U>, codecs: Codecs, lib: UrlLib<U>)
      requires codecs.isKnown(resp.charset)
      ensures Valid()
      ensures this.codecs == codecs && this.lib == lib
      ensures baseUrl == BaseUrlOf(resp)
      ensures baseDomain == lib.domain(BaseUrlOf(resp)) && rootDomain == lib.rootDomain(BaseUrlOf(resp))
      ensures encoding == resp.charset
      ensures reUrls == []
    {
      this.codecs := codecs;
      this.lib := lib;
      var url := resp.url;
      if resp.redirUrl.Some? {
        url := resp.redirUrl.value;
      }
      baseUrl := url;
      baseDomain := lib.domain(url);
      rootDomain := lib.rootDomain(url);
      encoding := resp.charset;
      reUrls := [];
    }

    /** `BaseParser(http_response)`: fails with `ValueError` exactly when
        the response charset is not a known encoding; otherwise the new
        parser takes its base URL (the redirect target if any) and domains
        from the response, its charset is the response charset, and
        `_re_urls` is empty. */
    static method Create(resp: Response<U>, codecs: Codecs, lib: UrlLib<U>)
      returns (r: Result<BaseParser<U>, ParserError>)
      ensures r.Failure? <==> !codecs.isKnown(resp.charset)
      ensures r.Failure? ==> r.error == UnknownEncoding(resp.charset)
      ensures r.Success? ==> (
        fresh(r.value) && r.value.Valid()
        && r.value.codecs == codecs && r.value.lib == lib
        && r.value.baseUrl == BaseUrlOf(resp)
        && r.value.baseDomain == lib.domain(BaseUrlOf(resp))
        && r.value.rootDomain == lib.rootDomain(BaseUrlOf(resp))
        && r.value.encoding == resp.charset
        && r.value.reUrls == [])
    {
      if !codecs.isKnown(resp.charset) {
        return Failure(UnknownEncoding(resp.charset));
      }
      var p := new BaseParser(resp, codecs, lib);
      return Success(p);
    }

    /** `_regex_url_parse(doc)`: adds to `_re_urls` every URL built from a
        candidate `URL_RE` finds in `doc`, skipping the candidates whose
        decoding or construction fails, then normalizes every member. */
    method RegexUrlParse(doc: string)
      requires Valid()
      modifies this`reUrls
      ensures Valid()
      ensures reUrls == NormalizeAll(lib, Collect(Builder(Ctx()), old(reUrls), UrlScanner.FindAll(doc)))
    {
      var candidates := UrlScanner.FindAll(doc);
      for i := 0 to |candidates|
        invariant reUrls == Collect(Builder(Ctx()), old(reUrls), candidates[..i])
      {
        CollectSnoc(Builder(Ctx()), old(reUrls), candidates, i);
        BuilderStep(Ctx(), candidates[i]);
        var decoded := DecodeUrl(codecs, encoding, Unicode(candidates[i]));
        if decoded.Some? {
          var url := lib.build(decoded.value, encoding);
          if url.Some? && url.value !in reUrls {
            reUrls := reUrls + [url.value];
          }
        }
      }
      assert candidates[..|candidates|] == candidates;
      NormalizeMembers();
    }

    /** `map(lambda u: u.normalize_url(), re_urls)`: every member of
        `_re_urls` is normalized in place. */
    method NormalizeMembers()
      modifies this`reUrls
      ensures reUrls == NormalizeAll(lib, old(reUrls))
    {
      ghost var collected := reUrls;
      for j := 0 to |reUrls|
        invariant |reUrls| == |collected|
        invariant forall k :: 0 <= k < j ==> reUrls[k] == lib.normalize(collected[k])
        invariant forall k :: j <= k < |reUrls| ==> reUrls[k] == collected[k]
      {
        reUrls := reUrls[j := lib.normalize(reUrls[j])];
      }
    }

    /** Each base-class getter (`get_forms`, `get_references`,
        `get_emails`, `get_comments`, `get_scripts`, `get_meta_redir`,
        `get_meta_tags`) raises `NotImplementedError` naming itself. */
    function Get<T>(c: Capability): (r: Result<T, ParserError>)
      ensures r.Failure? && r.error == NotImplementedError(MethodName(c))
    {
      Failure(NotImplementedError(MethodName(c)))
    }

    /** `_return_empty_list(*args, **kwds)`: an empty list, whatever the
        arguments. */
    function ReturnEmptyList<A, T>(args: A): (r: seq<T>)
      ensures r == []
    {
      []
    }

    /** Calling a getter of a concrete parser: the inherited one raises,
        one bound to `_return_empty_list` returns an empty list. */
    function Call<A, T>(b: Binding, c: Capability, args: A): (r: Result<seq<T>, ParserError>)
      ensures r.Success? <==> b == EmptyList
      ensures r.Success? ==> r.value == []
      ensures r.Failure? ==> r.error == NotImplementedError(MethodName(c))
    {
      match b
      case Inherited => Get(c)
      case EmptyList => Success(ReturnEmptyList(args))
    }
  }

  /** Only successfully built URLs enter the set, and every one does: a URL
      is a member after the loop exactly when it was one before or some
      candidate builds it. */
  lemma {:induction false} CollectMembers<U>(build: string -> Option<U>, members: seq<U>, candidates: seq<string>, u: U)
    ensures u in Collect(build, members, candidates) <==>
      u in members || exists i :: 0 <= i < |candidates| && build(candidates[i]) == Some(u)
    decreases |candidates|
  {
    if candidates != [] {
      var n := |candidates| - 1;
      var init := candidates[..n];
      CollectMembers(build, members, init, u);
      if exists i :: 0 <= i < |candidates| && build(candidates[i]) == Some(u) {
        var i :| 0 <= i < |candidates| && build(candidates[i]) == Some(u);
        if i < n {
          assert init[i] == candidates[i];
        }
      }
      if exists i :: 0 <= i < n && build(init[i]) == Some(u) {
        var i :| 0 <= i < n && build(init[i]) == Some(u);
        assert candidates[i] == init[i];
      }
    }
  }

  /** Equal URLs collapse to one entry: the loop never adds a member twice. */
  lemma {:induction false} CollectDistinct<U>(build: string -> Option<U>, members: seq<U>, candidates: seq<string>)
    requires Distinct(members)
    ensures Distinct(Collect(build, members, candidates))
    decreases |candidates|
  {
    if candidates != [] {
      CollectDistinct(build, members, candidates[..|candidates| - 1]);
    }
  }

  /** The loop's result depends only on what it had before the last
      candidate and on that candidate. */
  lemma CollectSameLast<U>(build: string -> Option<U>, members: seq<U>, a: seq<string>, b: seq<string>)
    requires a != [] && b != [] && a[|a| - 1] == b[|b| - 1]
    requires Collect(build, members, a[..|a| - 1]) == Collect(build, members, b[..|b| - 1])
    ensures Collect(build, members, a) == Collect(build, members, b)
  {
  }

  /** A candidate whose decoding or construction fails is skipped and the
      loop goes on: removing it from anywhere in the list changes nothing. */
  lemma {:induction false} CollectSkipsFailure<U>(build: string -> Option<U>, members: seq<U>, xs: seq<string>, c: string, ys: seq<string>)
    requires build(c).None?
    ensures Collect(build, members, xs + [c] + ys) == Collect(build, members, xs + ys)
    decreases |ys|
  {
    if ys == [] {
      assert xs + [c] + ys == xs + [c];
      assert (xs + [c])[..|xs|] == xs;
      assert xs + ys == xs;
    } else {
      var n := |ys| - 1;
      CollectSkipsFailure(build, members, xs, c, ys[..n]);
      var long := xs + [c] + ys;
      var short := xs + ys;
      assert long[..|long| - 1] == xs + [c] + ys[..n];
      assert short[..|short| - 1] == xs + ys[..n];
      CollectSameLast(build, members, long, short);
    }
  }

  /** A candidate that occurs again adds nothing the second time, wherever
      the repetition stands, so a document holding the same URL twice yields
      one entry. */
  lemma {:induction false} RepeatedCandidate<U>(build: string -> Option<U>, members: seq<U>, xs: seq<string>, c: string, ys: seq<string>)
    requires c in xs
    ensures Collect(build, members, xs + [c] + ys) == Collect(build, members, xs + ys)
    decreases |ys|
  {
    if ys == [] {
      assert xs + [c] + ys == xs + [c];
      assert (xs + [c])[..|xs|] == xs;
      assert xs + ys == xs;
      if build(c).Some? {
        var i :| 0 <= i < |xs| && xs[i] == c;
        CollectMembers(build, members, xs, build(c).value);
      }
    } else {
      var n := |ys| - 1;
      RepeatedCandidate(build, members, xs, c, ys[..n]);
      var long := xs + [c] + ys;
      var short := xs + ys;
      assert long[..|long| - 1] == xs + [c] + ys[..n];
      assert short[..|short| - 1] == xs + ys[..n];
      CollectSameLast(build, members, long, short);
    }
  }

  /** True when candidate `c` builds a URL that normalizes to `u`. */
  predicate Yields<U(==)>(ctx: Context<U>, c: string, u: U)
  {
    BuildUrl(ctx, c).Some? && ctx.lib.normalize(BuildUrl(ctx, c).value) == u
  }

  /** What a pass leaves in a fresh parser's `_re_urls`: exactly the
      normalized URLs built from the candidates `URL_RE` finds. */
  lemma FreshPassMembers<U>(ctx: Context<U>, doc: string, u: U)
    ensures var cs := UrlScanner.FindAll(doc);
      u in NormalizeAll(ctx.lib, Collect(Builder(ctx), [], cs)) <==>
        exists k :: 0 <= k < |cs| && Yields(ctx, cs[k], u)
  {
    var cs := UrlScanner.FindAll(doc);
    var collected := Collect(Builder(ctx), [], cs);
    var result := NormalizeAll(ctx.lib, collected);
    if u in result {
      var j :| 0 <= j < |result| && result[j] == u;
      CollectMembers(Builder(ctx), [], cs, collected[j]);
      var k :| 0 <= k < |cs| && BuildUrl(ctx, cs[k]) == Some(collected[j]);
      assert Yields(ctx, cs[k], u);
    }
    if exists k :: 0 <= k < |cs| && Yields(ctx, cs[k], u) {
      var k :| 0 <= k < |cs| && Yields(ctx, cs[k], u);
      var v := BuildUrl(ctx, cs[k]).value;
      CollectMembers(Builder(ctx), [], cs, v);
      var j :| 0 <= j < |collected| && collected[j] == v;
      assert result[j] == u;
    }
  }

  /** A document with no `http://` and no `https://` adds nothing: the pass
      only normalizes the members already there (so a fresh parser's set
      stays empty). */
  lemma NoSchemeNoUrls<U>(ctx: Context<U>, members: seq<U>, doc: string)
    requires forall q :: 0 <= q < |doc| ==> !UrlScanner.SchemeAt(doc, q)
    ensures Collect(Builder(ctx), members, UrlScanner.FindAll(doc)) == members
    ensures NormalizeAll(ctx.lib, Collect(Builder(ctx), [], UrlScanner.FindAll(doc))) == []
  {
    UrlScanner.NoCandidatesIffNoScheme(doc);
  }
}
