// Runs of calls: exactly which sets of domains are translated right in all of them
// (intl/bindtextdom.c, intl/textdomain.c, intl/dcigettext.c).
module CoherenceRuns {
  import opened Words
  import opened Bindings
  import opened DomainFiles
  import opened Coherence

  datatype Call =
    | BindTextDomain(domainname: Option<string>, dirname: Option<string>)
    | BindTextDomainCodeset(domainname: Option<string>, codeset: Option<string>)
    | TextDomain(domainname: Option<string>)
    | DcIgettext(req: Request)

  function Exec(env: Env, s: State, call: Call): (State, Option<string>) {
    match call
    case BindTextDomain(domainname, dirname) => BindDirname(env, s, domainname, dirname)
    case BindTextDomainCodeset(domainname, codeset) => BindCodeset(env, s, domainname, codeset)
    case TextDomain(domainname) => ChooseDomain(s, domainname)
    case DcIgettext(req) => Get(env, s, req)
  }

  // Every translation asked for in a run is from one of the domains
  ghost predicate Within(env: Env, s: State, calls: seq<Call>, names: set<string>)
    decreases |calls|
  {
    calls != [] ==>
    && (calls[0].DcIgettext? ==> calls[0].req.domainname.GetOr(s.default) in names)
    && Within(env, Exec(env, s, calls[0]).0, calls[1..], names)
  }

  // Every translation given in a run is the one by the bindings of the moment
  ghost predicate AllRight(env: Env, s: State, calls: seq<Call>)
    decreases |calls|
  {
    calls != [] ==>
    && (calls[0].DcIgettext? ==> Exec(env, s, calls[0]).1 == Answer(env, s, calls[0].req))
    && AllRight(env, Exec(env, s, calls[0]).0, calls[1..])
  }

  lemma CallKeeps(env: Env, s: State, used: set<string>, call: Call)
    requires Coherent(env, s, used) && !call.DcIgettext?
    ensures Coherent(env, Exec(env, s, call).0, used)
  {
    hide Coherent, Rebind;
    match call
    case BindTextDomain(domainname, dirname) =>
      if domainname.GetOr("") != "" {
        RebindKeeps(env, s, used, domainname.value, dirname, None);
      }
    case BindTextDomainCodeset(domainname, codeset) =>
      if domainname.GetOr("") != "" {
        RebindKeeps(env, s, used, domainname.value, None, codeset);
      }
    case TextDomain(domainname) => ChooseKeeps(env, s, used, domainname);
  }

  lemma {:induction false} ApartIsRight(env: Env, s: State, used: set<string>, calls: seq<Call>, names: set<string>)
    requires NamesFiles(env) && Apart(names) && used <= names
    requires Coherent(env, s, used) && Within(env, s, calls, names)
    ensures AllRight(env, s, calls)
    decreases |calls|
  {
    hide Coherent, Get, NamesFiles, Serves, Shares, BindDirname, BindCodeset, ChooseDomain, Answer;
    if calls != [] {
      var s' := Exec(env, s, calls[0]).0;
      if calls[0].DcIgettext? {
        var name := calls[0].req.domainname.GetOr(s.default);
        GetIsRight(env, s, used, calls[0].req);
        ApartIsRight(env, s', used + {name}, calls[1..], names);
      } else {
        CallKeeps(env, s, used, calls[0]);
        ApartIsRight(env, s', used, calls[1..], names);
      }
    }
  }

  // ---------------------------------------------------------------
  // Two domains with one file

  // A world of one locale, in which each text shows its codeset
  function World(find: (string, string, int, string) -> Option<seq<FileId>>): Env {
    Env("/usr/share/locale", category => "fr", dir => None, false, find, (f, msgid) => Some(msgid),
        (f, codeset: Option<string>, raw) => codeset.GetOr(raw), (f, n, text) => text)
  }

  const ONE: string := "UTF-8"
  const OTHER: string := "ISO-8859-1"

  function Ask(name: string, category: int): Call {
    DcIgettext(Request(Some(name), Some("m"), None, false, 0, category))
  }

  // Each domain gets a directory and a codeset of its own, before both are used
  function BindBoth(d: string, dir: string, d': string, dir': string): seq<Call> {
    [BindTextDomain(Some(d), Some(dir)), BindTextDomain(Some(d'), Some(dir')),
     BindTextDomainCodeset(Some(d), Some(ONE)), BindTextDomainCodeset(Some(d'), Some(OTHER))]
  }

  function After(env: Env, s: State, calls: seq<Call>): State
    decreases |calls|
  {
    if calls == [] then s else After(env, Exec(env, s, calls[0]).0, calls[1..])
  }

  lemma FindsOneFile(env: Env, convs: Converters, dir: string, b: Option<Binding>, key: Key, f: FileId)
    requires env == World(env.findDomain)
    requires env.findDomain(dir, "fr", key.category, key.domainname) == Some([f])
    ensures var (convs', text) := LookInFile(env, convs, f, b, key.msgid);
            LookInLocales(env, convs, dir, b, key, "fr") == (convs', Some((f, text.value)))
    ensures FindFrom(env, dir, CodesetOf(b), key, "fr") == Some((f, CodesetOf(b).GetOr(key.msgid)))
  {
    assert SkipColons("fr") == "fr";
    assert UpToColon("fr") == "fr" by {
      assert UpToColon("r") == "r";
    }
    var (convs', text) := LookInFile(env, convs, f, b, key.msgid);
    assert LookInChain(env, convs, [f], b, key.msgid) == (convs', Some((f, text.value)));
    assert FindIn(env, [f], CodesetOf(b), key.msgid) == Some((f, CodesetOf(b).GetOr(key.msgid)));
  }

  lemma BothBound(env: Env, d: string, dir: string, d': string, dir': string)
    requires d != d' && d != "" && d' != ""
    ensures var s := After(env, INITIAL, BindBoth(d, dir, d', dir'));
            && BindingOf(s.bound, d) == Some(Binding(d, dir, Some(ONE), 1))
            && BindingOf(s.bound, d') == Some(Binding(d', dir', Some(OTHER), 1))
            && s.cache == map[] && s.convs == map[]
  {
    var calls := BindBoth(d, dir, d', dir');
    var s1 := Exec(env, INITIAL, calls[0]).0;
    var s2 := Exec(env, s1, calls[1]).0;
    var s3 := Exec(env, s2, calls[2]).0;
    var s4 := Exec(env, s3, calls[3]).0;
    assert s2.bound == map[d := Binding(d, dir, None, 0), d' := Binding(d', dir', None, 0)];
    assert s4.bound == map[d := Binding(d, dir, Some(ONE), 1), d' := Binding(d', dir', Some(OTHER), 1)];
    AfterFour(env, INITIAL, calls[0], calls[1], calls[2], calls[3]);
  }

  lemma AfterFour(env: Env, s: State, a: Call, b: Call, c: Call, d: Call)
    ensures After(env, s, [a, b, c, d]) == Exec(env, Exec(env, Exec(env, Exec(env, s, a).0, b).0, c).0, d).0
  {
    hide Exec;
    var s1 := Exec(env, s, a).0;
    var s2 := Exec(env, s1, b).0;
    var s3 := Exec(env, s2, c).0;
    assert After(env, s3, [d]) == After(env, Exec(env, s3, d).0, []);
    assert After(env, s2, [c, d]) == After(env, s3, [d]);
    assert After(env, s1, [b, c, d]) == After(env, s2, [c, d]);
    assert [a, b, c, d][1..] == [b, c, d];
  }

  lemma AskedOnce(env: Env, s: State, name: string, category: int, dir: string, b: Binding, f: FileId)
    requires env == World(env.findDomain) && BindingOf(s.bound, name) == Some(b)
    requires b.dirname == dir && dir != "" && dir[0] == '/' && b.codeset.Some?
    requires env.findDomain(dir, "fr", category, name) == Some([f])
    requires Key("m", name, category) !in s.cache
    ensures var call := Ask(name, category);
            var (convs', text) := LookInFile(env, s.convs, f, Some(b), "m");
            && Answer(env, s, call.req) == b.codeset
            && Exec(env, s, call).1 == text
            && Exec(env, s, call).0 == s.(convs := convs', cache := s.cache[Key("m", name, category) :=
                 Known(s.counter, f, text.value)])
  {
    hide LookInLocales, FindFrom;
    FindsOneFile(env, s.convs, dir, Some(b), Key("m", name, category), f);
  }

  // The converter made for the first domain is taken for the second, whose codeset was
  // changed as often
  lemma SecondIsMisled(env: Env, d: string, dir: string, category: int, d': string, dir': string, category': int,
                       f: FileId)
    requires env == World(env.findDomain) && d != d' && d != "" && d' != ""
    requires dir != "" && dir[0] == '/' && env.findDomain(dir, "fr", category, d) == Some([f])
    requires dir' != "" && dir'[0] == '/' && env.findDomain(dir', "fr", category', d') == Some([f])
    ensures var s := After(env, INITIAL, BindBoth(d, dir, d', dir') + [Ask(d, category)]);
            && Exec(env, s, Ask(d', category')).1 == Some(ONE)
            && Answer(env, s, Ask(d', category').req) == Some(OTHER)
  {
    hide Exec, Answer, BindBoth, LookInFile;
    var calls := BindBoth(d, dir, d', dir');
    var s0 := After(env, INITIAL, calls);
    BothBound(env, d, dir, d', dir');
    var s := Exec(env, s0, Ask(d, category)).0;
    AfterOneMore(env, INITIAL, calls, Ask(d, category));
    var b, b' := Binding(d, dir, Some(ONE), 1), Binding(d', dir', Some(OTHER), 1);
    AskedOnce(env, s0, d, category, dir, b, f);
    AskedOnce(env, s, d', category', dir', b', f);
    SameConverter(env, f, b, b');
  }

  lemma SameConverter(env: Env, f: FileId, b: Binding, b': Binding)
    requires env == World(env.findDomain) && b.codesetCntr == b'.codesetCntr && b.codeset.Some?
    ensures var (convs, text) := LookInFile(env, map[], f, Some(b), "m");
            text == b.codeset && LookInFile(env, convs, f, Some(b'), "m").1 == b.codeset
  {
  }

  lemma {:induction false} AfterOneMore(env: Env, s: State, calls: seq<Call>, call: Call)
    ensures After(env, s, calls + [call]) == Exec(env, After(env, s, calls), call).0
    decreases |calls|
  {
    hide Exec;
    if calls == [] {
      assert After(env, s, [call]) == After(env, Exec(env, s, call).0, []);
      assert calls + [call] == [call];
    } else {
      assert (calls + [call])[1..] == calls[1..] + [call];
      AfterOneMore(env, Exec(env, s, calls[0]).0, calls[1..], call);
    }
  }

  lemma {:induction false} WrongInside(env: Env, s: State, calls: seq<Call>, call: Call)
    requires AllRight(env, s, calls + [call]) && call.DcIgettext?
    ensures Exec(env, After(env, s, calls), call).1 == Answer(env, After(env, s, calls), call.req)
    decreases |calls|
  {
    hide Exec, Answer;
    if calls == [] {
      assert calls + [call] == [call];
    } else {
      assert (calls + [call])[1..] == calls[1..] + [call];
      WrongInside(env, Exec(env, s, calls[0]).0, calls[1..], call);
    }
  }

  // Both domains are bound, then asked for the same message
  function SharingRun(d: string, dir: string, category: int, d': string, dir': string, category': int): seq<Call> {
    BindBoth(d, dir, d', dir') + [Ask(d, category)] + [Ask(d', category')]
  }

  lemma {:induction false} NamedIsWithin(env: Env, s: State, calls: seq<Call>, names: set<string>)
    requires forall call :: call in calls && call.DcIgettext? ==>
               call.req.domainname.Some? && call.req.domainname.value in names
    ensures Within(env, s, calls, names)
    decreases |calls|
  {
    hide Exec;
    if calls != [] {
      NamedIsWithin(env, Exec(env, s, calls[0]).0, calls[1..], names);
    }
  }

  // Any two domains that can share a file have a world and a run in which the second
  // one is translated into the codeset of the first
  lemma SharingMisleads(d: string, d': string) returns (env: Env, calls: seq<Call>)
    requires Shares(d, d') && d != d' && d != "" && d' != ""
    ensures NamesFiles(env) && Within(env, INITIAL, calls, {d, d'}) && !AllRight(env, INITIAL, calls)
  {
    hide Exec, Answer, After, AllRight, Within;
    var f :| Serves(f, d) && Serves(f, d');
    var category :| NamedFor(f, category, d);
    var category' :| NamedFor(f, category', d');
    var find := (dir: string, locale: string, category: int, name: string) =>
      if NamedFor(f, category, name) then Some([f]) else None;
    env := World(find);
    var dir := "/usr/share/locale";
    calls := SharingRun(d, dir, category, d', dir, category');
    NamedIsWithin(env, INITIAL, calls, {d, d'});
    SecondIsMisled(env, d, dir, category, d', dir, category', f);
    if AllRight(env, INITIAL, calls) {
      WrongInside(env, INITIAL, BindBoth(d, dir, d', dir) + [Ask(d, category)], Ask(d', category'));
      assert false;
    }
  }

  ghost predicate AlwaysRight(names: set<string>) {
    forall env, calls :: NamesFiles(env) && Within(env, INITIAL, calls, names) ==> AllRight(env, INITIAL, calls)
  }

  lemma InitialIsCoherent(env: Env)
    ensures Coherent(env, INITIAL, {})
  {
  }

  // Every run over a set of domains is right in every world exactly if no two of them
  // can share a file, which their names tell
  lemma RightExactly(names: set<string>)
    ensures AlwaysRight(names) <==> Apart(names)
    ensures AlwaysRight(names) <==>
            forall d, d' :: d in names && d' in names && d != "" && d' != "" ==> !Covers(d, d')
  {
    hide Coherent, NamesFiles, Shares, AllRight, Within, Covers;
    ApartExactly(names);
    if Apart(names) {
      forall env, calls | NamesFiles(env) && Within(env, INITIAL, calls, names)
        ensures AllRight(env, INITIAL, calls)
      {
        InitialIsCoherent(env);
        ApartIsRight(env, INITIAL, {}, calls, names);
      }
    } else {
      var d, d' :| d in names && d' in names && d != "" && d' != "" && Shares(d, d') && d != d';
      var env, calls := SharingMisleads(d, d');
      WithinMore(env, INITIAL, calls, {d, d'}, names);
    }
  }

  lemma {:induction false} WithinMore(env: Env, s: State, calls: seq<Call>, some: set<string>, names: set<string>)
    requires Within(env, s, calls, some) && some <= names
    ensures Within(env, s, calls, names)
    decreases |calls|
  {
    hide Exec;
    if calls != [] {
      WithinMore(env, Exec(env, s, calls[0]).0, calls[1..], some, names);
    }
  }

  // ---------------------------------------------------------------
  // Names of files as _nl_find_domain makes them

  function Path(dir: string, locale: string, category: int, name: string): FileId {
    dir + "/" + locale + FileEnd(category, name)
  }

  function PathsOnly(dir: string, locale: string, category: int, name: string): Option<seq<FileId>> {
    Some([Path(dir, locale, category, name)])
  }

  // A domain in a subdirectory and one in a directory further down
  lemma SamePath(dir: string, locale: string, category: int, name: string)
    ensures var below := locale + "/" + CategoryName(category);
            Path(dir + "/" + below, locale, category, name) == Path(dir, locale, category, below + "/" + name)
  {
  }

  lemma PathsName()
    ensures NamesFiles(World(PathsOnly))
  {
  }

  // The domain "x" bound to "/d/fr/LC_MESSAGES" and the domain "fr/LC_MESSAGES/x" bound
  // to "/d": both have the file "/d/fr/LC_MESSAGES/fr/LC_MESSAGES/x.mo"
  lemma BelowIsMisled()
    ensures var env := World(PathsOnly);
            var calls := SharingRun("x", "/d/fr/LC_MESSAGES", 5, "fr/LC_MESSAGES/x", "/d", 5);
            NamesFiles(env) && !AllRight(env, INITIAL, calls)
  {
    hide Exec, Answer, After, BindBoth, AllRight;
    var env := World(PathsOnly);
    var d, dir, d', dir' := "x", "/d/fr/LC_MESSAGES", "fr/LC_MESSAGES/x", "/d";
    PathsName();
    SamePath("/d", "fr", 5, "x");
    var below := "fr" + "/" + CategoryName(5);
    assert below == "fr/LC_MESSAGES";
    assert dir == "/d" + "/" + below && d' == below + "/" + d;
    SecondIsMisled(env, d, dir, 5, d', dir', 5, Path(dir, "fr", 5, d));
    if AllRight(env, INITIAL, SharingRun(d, dir, 5, d', dir', 5)) {
      WrongInside(env, INITIAL, BindBoth(d, dir, d', dir') + [Ask(d, 5)], Ask(d', 5));
      assert false;
    }
  }
}
