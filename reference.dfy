/** The reference resolver of `install`: the argument is trimmed, then either
    names an existing directory or must match the `RE_PACKAGE` grammar
      [pecl/]<word-chars>[ -(beta|stable|alpha) | @<version> ]
    from which the registry identity and its download locations are derived. */
module Reference {
  import opened Model

  const RegistryBase: string := "http://pecl.php.net/get/"
  const PeclPrefix: string := "pecl/"
  const InvalidNamePrefix: string := "Invalid package name: "

  /** The two characters `rtrim($path, '/\\')` removes. */
  predicate IsSeparator(c: char) { c == '/' || c == '\\' }

  /** PCRE `\d`. */
  predicate IsDigit(c: char) { '0' <= c <= '9' }

  /** PCRE `\w` in the C locale: ASCII letters, digits and underscore. */
  predicate IsWordChar(c: char) {
    'a' <= c <= 'z' || 'A' <= c <= 'Z' || IsDigit(c) || c == '_'
  }

  /** `\w+` matches all of `s`. */
  predicate IsWord(s: string) {
    |s| > 0 && forall i :: 0 <= i < |s| ==> IsWordChar(s[i])
  }

  /** `rtrim(s, '/\\')`: the longest prefix of `s` that does not end in a
      separator, everything cut off being separators. */
  function TrimSeparators(s: string): (r: string)
    ensures r <= s
    ensures r == [] || !IsSeparator(r[|r| - 1])
    ensures forall i :: |r| <= i < |s| ==> IsSeparator(s[i])
  {
    if |s| > 0 && IsSeparator(s[|s| - 1]) then TrimSeparators(s[..|s| - 1]) else s
  }

  /** Length of the longest prefix of word characters. */
  function WordRun(s: string): (n: nat)
    ensures n <= |s|
    ensures forall i :: 0 <= i < n ==> IsWordChar(s[i])
    ensures n < |s| ==> !IsWordChar(s[n])
  {
    if |s| > 0 && IsWordChar(s[0]) then 1 + WordRun(s[1..]) else 0
  }

  /** Length of the longest prefix of digits. */
  function DigitRun(s: string): (n: nat)
    ensures n <= |s|
    ensures forall i :: 0 <= i < n ==> IsDigit(s[i])
    ensures n < |s| ==> !IsDigit(s[n])
  {
    if |s| > 0 && IsDigit(s[0]) then 1 + DigitRun(s[1..]) else 0
  }

  /** Recognizer for the version group `(?:\d+.?)+` followed by the end of the
      subject. The `.` is unescaped, so each repetition is a run of digits
      followed by at most one character other than a newline. */
  predicate IsVersion(v: string)
    decreases |v|
  {
    && |v| > 0
    && IsDigit(v[0])
    && var rest := v[DigitRun(v)..];
       rest == [] || (rest[0] != '\n' && (|rest| == 1 || IsVersion(rest[1..])))
  }

  /** Independent description of the same language: a digit first, no
      newline, and never two non-digits in a row. */
  predicate VersionShape(v: string) {
    && |v| > 0
    && IsDigit(v[0])
    && (forall i :: 0 <= i < |v| ==> v[i] != '\n')
    && (forall i :: 0 <= i < |v| - 1 ==> IsDigit(v[i]) || IsDigit(v[i + 1]))
  }

  lemma {:induction false} VersionIff(v: string)
    ensures IsVersion(v) <==> VersionShape(v)
    decreases |v|
  {
    if |v| > 0 && IsDigit(v[0]) {
      var d := DigitRun(v);
      var rest := v[d..];
      if rest != [] {
        var t := rest[1..];
        assert !IsDigit(v[d]);
        assert t == v[d + 1..];
        VersionIff(t);
        if VersionShape(v) {
          assert v[d] != '\n';
          if |rest| > 1 {
            assert IsDigit(t[0]) by { assert IsDigit(v[d]) || IsDigit(v[d + 1]); }
            forall i | 0 <= i < |t| ensures t[i] != '\n' { assert t[i] == v[d + 1 + i]; }
            forall i | 0 <= i < |t| - 1 ensures IsDigit(t[i]) || IsDigit(t[i + 1]) {
              assert t[i] == v[d + 1 + i] && t[i + 1] == v[d + 1 + i + 1];
            }
          }
        }
        if IsVersion(v) {
          assert v[d] != '\n';
          forall i | 0 <= i < |v| ensures v[i] != '\n' {
            if d < i { assert v[i] == t[i - d - 1]; }
          }
          forall i | 0 <= i < |v| - 1 ensures IsDigit(v[i]) || IsDigit(v[i + 1]) {
            if i == d { assert v[i + 1] == t[0]; }
            else if d < i { assert v[i] == t[i - d - 1] && v[i + 1] == t[i - d]; }
          }
        }
      }
    }
  }

  /** The release channels the grammar accepts after `-`. */
  datatype Stability = Alpha | Beta | Stable {
    function Name(): string {
      match this
      case Alpha => "alpha"
      case Beta => "beta"
      case Stable => "stable"
    }
  }

  /** The alternation `beta|stable|alpha` anchored at the end. */
  function ParseStability(s: string): (r: Option<Stability>)
    ensures forall st: Stability :: r == Some(st) <==> s == st.Name()
  {
    if s == "beta" then Some(Beta)
    else if s == "stable" then Some(Stable)
    else if s == "alpha" then Some(Alpha)
    else None
  }

  /** The named groups of a successful match: `package`, and the optional
      `stability` and `version`. */
  datatype SpecMatch = SpecMatch(package: string, stability: Option<Stability>, version: Option<string>)

  /** What the grammar allows a match to hold: a word, and at most one of the
      two suffixes, a version being of the shape above. */
  predicate WellFormed(m: SpecMatch) {
    && IsWord(m.package)
    && (m.stability.Some? ==> m.version.None?)
    && (m.version.Some? ==> VersionShape(m.version.value))
  }

  function Suffix(m: SpecMatch): string {
    if m.stability.Some? then "-" + m.stability.value.Name()
    else if m.version.Some? then "@" + m.version.value
    else ""
  }

  /** The argument text that spells `m`, with or without the `pecl/` prefix. */
  function Render(pecl: bool, m: SpecMatch): string {
    (if pecl then PeclPrefix else "") + m.package + Suffix(m)
  }

  /** The arguments the pattern accepts. Without the `D` modifier PCRE's `$`
      also matches just before a final newline, so a spelling followed by one
      `\n` is accepted too. */
  ghost predicate Accepted(path: string) {
    exists pecl: bool, m: SpecMatch :: WellFormed(m) && (path == Render(pecl, m) || path == Render(pecl, m) + "\n")
  }

  predicate StartsWithPecl(s: string) {
    |s| >= |PeclPrefix| && s[..|PeclPrefix|] == PeclPrefix
  }

  /** The part of the pattern after the optional `pecl/` prefix. */
  function ParseBody(body: string): (r: Option<SpecMatch>)
    ensures r.Some? ==> WellFormed(r.value) && body == r.value.package + Suffix(r.value)
  {
    var n := WordRun(body);
    var name, rest := body[..n], body[n..];
    assert body == name + rest;
    if n == 0 then None
    else if rest == [] then Some(SpecMatch(name, None, None))
    else if rest[0] == '-' then
      match ParseStability(rest[1..])
      case Some(st) => assert rest == "-" + st.Name(); Some(SpecMatch(name, Some(st), None))
      case None => None
    else if rest[0] == '@' && IsVersion(rest[1..]) then
      assert rest == "@" + rest[1..];
      VersionIff(rest[1..]);
      Some(SpecMatch(name, None, Some(rest[1..])))
    else None
  }

  /** The pattern after its first `k` characters. */
  function ParseFrom(path: string, k: nat): (r: Option<SpecMatch>)
    requires k <= |path|
    ensures r.Some? ==> WellFormed(r.value) && path == path[..k] + r.value.package + Suffix(r.value)
  {
    var body := path[k..];
    assert path == path[..k] + body;
    ParseBody(body)
  }

  /** The pattern with `$` read as the very end of the text. When the text
      starts with `pecl/` the prefix has to be taken, since `\w` cannot match
      its slash. */
  function Parse(path: string): (r: Option<SpecMatch>)
    ensures r.Some? ==> WellFormed(r.value) && path == Render(StartsWithPecl(path), r.value)
  {
    if StartsWithPecl(path) then ParseFrom(path, |PeclPrefix|)
    else
      assert path[..0] == "";
      ParseFrom(path, 0)
  }

  /** A spelling never ends in a newline: it ends in a word character, in a
      stability name or in a version. */
  lemma RenderLast(pecl: bool, m: SpecMatch)
    requires WellFormed(m)
    ensures var p := Render(pecl, m); |p| > 0 && p[|p| - 1] != '\n'
  {
    var p := Render(pecl, m);
    if m.stability.Some? {
      assert p[|p| - 1] == m.stability.value.Name()[|m.stability.value.Name()| - 1];
    } else if m.version.Some? {
      assert p[|p| - 1] == m.version.value[|m.version.value| - 1];
    } else {
      assert p[|p| - 1] == m.package[|m.package| - 1];
    }
  }

  /** A rendered match without the prefix never starts with `pecl/`: the
      fifth character is a word character or a suffix introducer. */
  lemma NoPeclPrefix(m: SpecMatch)
    requires WellFormed(m)
    ensures !StartsWithPecl(m.package + Suffix(m))
  {
    var s := m.package + Suffix(m);
    var k := |m.package|;
    if k > 4 {
      assert s[4] == m.package[4];
      assert s[4] != PeclPrefix[4];
    } else if Suffix(m) == [] {
      assert |s| == k < |PeclPrefix|;
    } else {
      assert s[k] == Suffix(m)[0];
      assert s[k] != PeclPrefix[k];
    }
  }

  /** The word run of a word followed by a non-word character, or by
      nothing, is that word. */
  lemma {:induction false} WordRunCat(a: string, b: string)
    requires forall i :: 0 <= i < |a| ==> IsWordChar(a[i])
    requires b == [] || !IsWordChar(b[0])
    ensures WordRun(a + b) == |a|
  {
    if a == [] {
      assert a + b == b;
    } else {
      assert (a + b)[1..] == a[1..] + b;
      WordRunCat(a[1..], b);
    }
  }

  /** The word run of a spelling ends where its package name ends. */
  lemma BodySplit(m: SpecMatch)
    requires WellFormed(m)
    ensures var body, k := m.package + Suffix(m), |m.package|;
      WordRun(body) == k && body[..k] == m.package && body[k..] == Suffix(m)
  {
    WordRunCat(m.package, Suffix(m));
  }

  /** Without the prefix, every well-formed match is parsed back to itself. */
  lemma ParseBodyRender(m: SpecMatch)
    requires WellFormed(m)
    ensures ParseBody(m.package + Suffix(m)) == Some(m)
  {
    BodySplit(m);
    if m.stability.Some? {
      assert Suffix(m)[1..] == m.stability.value.Name();
    } else if m.version.Some? {
      assert Suffix(m)[1..] == m.version.value;
      VersionIff(m.version.value);
    }
  }

  /** A text that starts with `pecl/` is parsed after the prefix. */
  lemma ParsePrefixed(body: string)
    ensures Parse(PeclPrefix + body) == ParseBody(body)
  {
    var p := PeclPrefix + body;
    assert p[..|PeclPrefix|] == PeclPrefix;
    assert p[|PeclPrefix|..] == body;
  }

  /** A text that does not start with `pecl/` is parsed whole. */
  lemma ParseBare(path: string)
    requires !StartsWithPecl(path)
    ensures Parse(path) == ParseBody(path)
  {
    assert path[0..] == path;
  }

  /** Completeness and unambiguity: every well-formed match, spelled with or
      without the prefix, is parsed back to exactly itself. */
  lemma ParseRender(pecl: bool, m: SpecMatch)
    requires WellFormed(m)
    ensures Parse(Render(pecl, m)) == Some(m)
  {
    var body := m.package + Suffix(m);
    ParseBodyRender(m);
    if pecl {
      ParsePrefixed(body);
      assert Render(pecl, m) == PeclPrefix + body;
    } else {
      NoPeclPrefix(m);
      ParseBare(body);
      assert Render(pecl, m) == body;
    }
  }

  /** `preg_match(RE_PACKAGE, path, $matches)`, `None` when it returns 0: a
      strict match, or else one of the text before a final newline. */
  function Match(path: string): (r: Option<SpecMatch>)
    ensures r.Some? ==> WellFormed(r.value)
    ensures r.Some? ==>
      || path == Render(StartsWithPecl(path), r.value)
      || (|path| > 0 && path == Render(StartsWithPecl(path[..|path| - 1]), r.value) + "\n")
  {
    match Parse(path)
    case Some(m) => Some(m)
    case None =>
      if |path| > 0 && path[|path| - 1] == '\n' then
        assert path == path[..|path| - 1] + "\n";
        Parse(path[..|path| - 1])
      else None
  }

  /** Every spelling of a well-formed match, with or without the final
      newline, is matched to exactly that match. */
  lemma MatchRender(pecl: bool, m: SpecMatch)
    requires WellFormed(m)
    ensures Match(Render(pecl, m)) == Some(m)
    ensures Match(Render(pecl, m) + "\n") == Some(m)
  {
    ParseRender(pecl, m);
    var p := Render(pecl, m);
    var q := p + "\n";
    if Parse(q).Some? {
      RenderLast(StartsWithPecl(q), Parse(q).value);
      assert false;
    }
    assert q[..|q| - 1] == p;
  }

  /** The pattern, both ways: `preg_match` succeeds exactly on accepted
      arguments, and what it captures is the one match that spells it. */
  lemma MatchAccepts(path: string)
    ensures Match(path).Some? <==> Accepted(path)
    ensures forall pecl: bool, m: SpecMatch :: WellFormed(m) && (path == Render(pecl, m) || path == Render(pecl, m) + "\n") ==> Match(path) == Some(m)
  {
    if Match(path).Some? {
      var m := Match(path).value;
      if path == Render(StartsWithPecl(path), m) {
        assert WellFormed(m) && path == Render(StartsWithPecl(path), m);
      } else {
        var pecl := StartsWithPecl(path[..|path| - 1]);
        assert WellFormed(m) && path == Render(pecl, m) + "\n";
      }
    }
    forall pecl: bool, m: SpecMatch | WellFormed(m) && (path == Render(pecl, m) || path == Render(pecl, m) + "\n")
      ensures Match(path) == Some(m)
    {
      MatchRender(pecl, m);
    }
  }

  /** The identity of a registry package, as handed to the downloader. */
  datatype Identity = Identity(
    name: string,
    stability: Stability,
    version: string,
    prettyVersion: string,
    distUrl: string,
    targetPath: string)

  /** The three ways the first part of `execute` can end. */
  datatype Resolution =
    | LocalPath(path: string)
    | Remote(id: Identity)
    | InvalidName(message: string)

  /** Defaults, dist URL and download target of a match. */
  function Derive(m: SpecMatch, env: Env): Identity {
    var stability := if m.stability.Some? then m.stability.value else Stable;
    var version := if m.version.Some? then m.version.value else "latest";
    var prettyVersion := if m.version.Some? then m.version.value else "latest-" + stability.Name();
    var url := RegistryBase + m.package
      + (if m.stability.Some? then "-" + m.stability.value.Name() else "")
      + (if m.version.Some? then "/" + m.version.value else "");
    Identity(m.package, stability, version, prettyVersion, url, env.tempDir + env.sep + m.package)
  }

  /** Lines 58-84 of `execute`: trim, bypass for an existing directory,
      grammar check, derivation. */
  function Resolve(arg: string, fs: FileSystem, env: Env): Resolution {
    var path := TrimSeparators(arg);
    if path in fs.dirs then LocalPath(path)
    else match Match(path)
      case None => InvalidName(InvalidNamePrefix + path)
      case Some(m) => Remote(Derive(m, env))
  }

  /** Trailing separators are cut off whatever precedes them. */
  lemma {:induction false} TrimAbsorbs(s: string, tail: string)
    requires forall i :: 0 <= i < |tail| ==> IsSeparator(tail[i])
    ensures TrimSeparators(s + tail) == TrimSeparators(s)
    decreases |tail|
  {
    if tail == [] {
      assert s + tail == s;
    } else {
      var shorter := tail[..|tail| - 1];
      assert (s + tail)[..|s + tail| - 1] == s + shorter;
      TrimAbsorbs(s, shorter);
    }
  }

  /** Trimming comes before everything else: trailing separators never change
      the result. */
  lemma ResolveIgnoresTrailingSeparators(arg: string, tail: string, fs: FileSystem, env: Env)
    requires forall i :: 0 <= i < |tail| ==> IsSeparator(tail[i])
    ensures Resolve(arg + tail, fs, env) == Resolve(arg, fs, env)
  {
    TrimAbsorbs(arg, tail);
  }

  /** An argument made only of separators, such as `///`, trims to the empty
      string, which is rejected (PHP's `is_dir('')` is false). */
  lemma ResolveOnlySeparators(arg: string, fs: FileSystem, env: Env)
    requires forall i :: 0 <= i < |arg| ==> IsSeparator(arg[i])
    requires "" !in fs.dirs
    ensures Resolve(arg, fs, env) == InvalidName("Invalid package name: ")
  {
    TrimAbsorbs("", arg);
    assert "" + arg == arg;
    assert TrimSeparators("") == "";
    assert Match("") == None;
  }

  /** The three outcomes, each in terms of the trimmed argument: a directory
      bypasses the grammar, otherwise the grammar decides. */
  lemma ResolveCases(arg: string, fs: FileSystem, env: Env)
    ensures var path := TrimSeparators(arg);
      && (Resolve(arg, fs, env) == LocalPath(path) <==> path in fs.dirs)
      && (Resolve(arg, fs, env) == InvalidName(InvalidNamePrefix + path) <==> path !in fs.dirs && !Accepted(path))
      && (Resolve(arg, fs, env).Remote? <==> path !in fs.dirs && Accepted(path))
  {
    MatchAccepts(TrimSeparators(arg));
  }

  /** A text that does not end in a separator is left alone by trimming. */
  lemma TrimKeeps(s: string)
    requires s == [] || !IsSeparator(s[|s| - 1])
    ensures TrimSeparators(s) == s
  {
  }

  /** A spelling that does not end in a separator and is not a directory
      resolves to the derivation of its match. */
  lemma ResolveSpelling(pecl: bool, m: SpecMatch, fs: FileSystem, env: Env)
    requires WellFormed(m)
    requires var p := Render(pecl, m); !IsSeparator(p[|p| - 1]) && p !in fs.dirs
    ensures Resolve(Render(pecl, m), fs, env) == Remote(Derive(m, env))
  {
    TrimKeeps(Render(pecl, m));
    MatchRender(pecl, m);
  }

  /** One trailing newline is not trimmed, yet the argument resolves as if
      it were absent: `foo\n` downloads `foo`. */
  lemma ResolveTrailingNewline(pecl: bool, m: SpecMatch, fs: FileSystem, env: Env)
    requires WellFormed(m)
    requires Render(pecl, m) + "\n" !in fs.dirs
    ensures Resolve(Render(pecl, m) + "\n", fs, env) == Remote(Derive(m, env))
  {
    var q := Render(pecl, m) + "\n";
    assert q[|q| - 1] == '\n';
    TrimKeeps(q);
    MatchRender(pecl, m);
  }

  /** The derivation for a bare name. */
  lemma DerivePlain(name: string, env: Env)
    ensures Derive(SpecMatch(name, None, None), env)
      == Identity(name, Stable, "latest", "latest-stable", RegistryBase + name, env.tempDir + env.sep + name)
  {
    assert RegistryBase + name + "" + "" == RegistryBase + name;
  }

  /** The derivation for a name with a stability. */
  lemma DeriveStability(name: string, st: Stability, env: Env)
    ensures Derive(SpecMatch(name, Some(st), None), env)
      == Identity(name, st, "latest", "latest-" + st.Name(), RegistryBase + name + "-" + st.Name(), env.tempDir + env.sep + name)
  {
    assert RegistryBase + name + ("-" + st.Name()) + "" == RegistryBase + name + "-" + st.Name();
  }

  /** The derivation for a name with an explicit version. */
  lemma DeriveVersion(name: string, v: string, env: Env)
    ensures Derive(SpecMatch(name, None, Some(v)), env)
      == Identity(name, Stable, v, v, RegistryBase + name + "/" + v, env.tempDir + env.sep + name)
  {
    assert RegistryBase + name + "" + ("/" + v) == RegistryBase + name + "/" + v;
  }

  /** Lines 58-84 as a whole: whenever the trimmed argument is not a
      directory and spells a well-formed match, with or without one final
      newline, the argument resolves to the identity derived from that match. */
  lemma ResolveDerives(arg: string, fs: FileSystem, env: Env)
    ensures var path := TrimSeparators(arg);
      forall pecl: bool, m: SpecMatch ::
        && WellFormed(m)
        && (path == Render(pecl, m) || path == Render(pecl, m) + "\n")
        && path !in fs.dirs
        ==> Resolve(arg, fs, env) == Remote(Derive(m, env))
  {
    MatchAccepts(TrimSeparators(arg));
  }

  /** `[pecl/]name`: stable channel, latest version, bare URL. */
  lemma ResolvePlain(pecl: bool, name: string, fs: FileSystem, env: Env)
    requires IsWord(name)
    requires Render(pecl, SpecMatch(name, None, None)) !in fs.dirs
    ensures Resolve(Render(pecl, SpecMatch(name, None, None)), fs, env)
      == Remote(Identity(name, Stable, "latest", "latest-stable", RegistryBase + name,
                         env.tempDir + env.sep + name))
  {
    var m := SpecMatch(name, None, None);
    var p := Render(pecl, m);
    assert p == (if pecl then PeclPrefix else "") + name + "";
    assert p[|p| - 1] == name[|name| - 1];
    ResolveSpelling(pecl, m, fs, env);
    DerivePlain(name, env);
  }

  /** A stability name is not empty and does not end in `/` or `\\`, so a
      spelling ending in it survives trimming. */
  lemma StabilityLast(st: Stability)
    ensures |st.Name()| > 0 && !IsSeparator(st.Name()[|st.Name()| - 1])
  {
  }

  /** `[pecl/]name-<stability>`: the channel is kept, the version is latest
      and the URL gains `-<stability>` only. */
  lemma ResolveStability(pecl: bool, name: string, st: Stability, fs: FileSystem, env: Env)
    requires IsWord(name)
    requires Render(pecl, SpecMatch(name, Some(st), None)) !in fs.dirs
    ensures Resolve(Render(pecl, SpecMatch(name, Some(st), None)), fs, env)
      == Remote(Identity(name, st, "latest", "latest-" + st.Name(),
                         RegistryBase + name + "-" + st.Name(), env.tempDir + env.sep + name))
  {
    var m := SpecMatch(name, Some(st), None);
    var p := Render(pecl, m);
    var n := st.Name();
    StabilityLast(st);
    assert p == (if pecl then PeclPrefix else "") + name + ("-" + n);
    assert p[|p| - 1] == n[|n| - 1];
    ResolveSpelling(pecl, m, fs, env);
    DeriveStability(name, st, env);
  }

  /** `[pecl/]name@<version>`: stable channel, the explicit version is both
      version and pretty version, and the URL gains `/<version>` only. */
  lemma ResolveVersion(pecl: bool, name: string, v: string, fs: FileSystem, env: Env)
    requires IsWord(name) && VersionShape(v) && !IsSeparator(v[|v| - 1])
    requires Render(pecl, SpecMatch(name, None, Some(v))) !in fs.dirs
    ensures Resolve(Render(pecl, SpecMatch(name, None, Some(v))), fs, env)
      == Remote(Identity(name, Stable, v, v, RegistryBase + name + "/" + v, env.tempDir + env.sep + name))
  {
    var m := SpecMatch(name, None, Some(v));
    var p := Render(pecl, m);
    assert p[|p| - 1] == v[|v| - 1];
    ResolveSpelling(pecl, m, fs, env);
    DeriveVersion(name, v, env);
  }

  /** `foo@1.2.3` names package `foo`, version `1.2.3`, channel `stable`. */
  lemma ResolveFooVersion(arg: string, fs: FileSystem, env: Env)
    requires arg == "foo@1.2.3" && arg !in fs.dirs
    ensures Resolve(arg, fs, env)
      == Remote(Identity("foo", Stable, "1.2.3", "1.2.3", "http://pecl.php.net/get/foo/1.2.3",
                         env.tempDir + env.sep + "foo"))
  {
    assert VersionShape("1.2.3") by {
      var v := "1.2.3";
      assert forall i :: 0 <= i < |v| ==> v[i] in "1.23";
    }
    assert Render(false, SpecMatch("foo", None, Some("1.2.3"))) == arg;
    assert RegistryBase + "foo" + "/" + "1.2.3" == "http://pecl.php.net/get/foo/1.2.3";
    ResolveVersion(false, "foo", "1.2.3", fs, env);
  }

  /** What every remote identity satisfies: its name is a word, the download
      target depends on nothing but the name, an explicit version forces the
      stable channel and appears as pretty version, `latest` goes with
      `latest-<stability>`, and the URL carries at most one suffix. */
  ghost predicate RemoteInvariant(id: Identity, env: Env) {
    && IsWord(id.name)
    && id.targetPath == env.tempDir + env.sep + id.name
    && (id.version == "latest" <==> id.prettyVersion == "latest-" + id.stability.Name())
    && (id.version != "latest" ==>
          && VersionShape(id.version)
          && id.stability == Stable
          && id.prettyVersion == id.version
          && id.distUrl == RegistryBase + id.name + "/" + id.version)
    && (id.version == "latest" ==>
          || id.distUrl == RegistryBase + id.name
          || id.distUrl == RegistryBase + id.name + "-" + id.stability.Name())
  }

  lemma DeriveInvariant(m: SpecMatch, env: Env)
    requires WellFormed(m)
    ensures RemoteInvariant(Derive(m, env), env)
  {
    var id := Derive(m, env);
    if m.version.Some? {
      var v := m.version.value;
      assert v[0] != "latest"[0];
      assert id.prettyVersion[0] != ("latest-" + id.stability.Name())[0];
      assert RegistryBase + m.package + "" + ("/" + v) == RegistryBase + id.name + "/" + id.version;
    } else if m.stability.Some? {
      assert RegistryBase + m.package + ("-" + m.stability.value.Name()) + ""
        == RegistryBase + id.name + "-" + id.stability.Name();
    } else {
      assert RegistryBase + m.package + "" + "" == RegistryBase + id.name;
    }
  }

  lemma RemoteInvariants(arg: string, fs: FileSystem, env: Env)
    requires Resolve(arg, fs, env).Remote?
    ensures RemoteInvariant(Resolve(arg, fs, env).id, env)
  {
    DeriveInvariant(Match(TrimSeparators(arg)).value, env);
  }
}
