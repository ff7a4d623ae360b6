// What callers get: translations found along the list of locales, untranslated
// messages, and the effect of bindings (intl/bindtextdom.c, intl/textdomain.c,
// intl/dcigettext.c).
module CoherenceReplies {
  import opened Words
  import opened Bindings
  import opened DomainFiles
  import opened Coherence
  import opened CoherenceRuns
  import opened Libintl

  // ---------------------------------------------------------------
  // The list of locales

  function Colons(n: nat): string {
    if n == 0 then "" else ":" + Colons(n - 1)
  }

  // A category value: locales with colons before each and behind the last
  function Listed(locales: seq<string>, gaps: seq<nat>, end: nat): string
    requires |gaps| == |locales|
  {
    if locales == [] then Colons(end)
    else Colons(gaps[0]) + (locales[0] + Listed(locales[1..], gaps[1..], end))
  }

  ghost predicate LocalesOk(locales: seq<string>, gaps: seq<nat>) {
    && |gaps| == |locales|
    && (forall i :: 0 <= i < |locales| ==> locales[i] != "" && ':' !in locales[i])
    && forall i :: 0 < i < |gaps| ==> gaps[i] > 0
  }

  // The files that are asked: those of each locale in order, up to C or POSIX
  function Files(env: Env, dir: string, key: Key, locales: seq<string>): seq<FileId> {
    if locales == [] then [] else FilesOf(env, dir, key, locales[0], Files(env, dir, key, locales[1..]))
  }

  function FilesOf(env: Env, dir: string, key: Key, locale: string, more: seq<FileId>): seq<FileId> {
    if locale == "C" || locale == "POSIX" then []
    else if env.secure && '/' in locale then more
    else env.findDomain(dir, locale, key.category, key.domainname).GetOr([]) + more
  }

  lemma {:induction false} ColonsAreSkipped(n: nat, s: string)
    requires s == "" || s[0] != ':'
    ensures SkipColons(Colons(n) + s) == s
  {
    if n == 0 {
      assert Colons(n) + s == s;
    } else {
      assert (Colons(n) + s)[1..] == Colons(n - 1) + s;
      ColonsAreSkipped(n - 1, s);
    }
  }

  lemma {:induction false} LocaleIsCut(locale: string, s: string)
    requires ':' !in locale && (s == "" || s[0] == ':')
    ensures UpToColon(locale + s) == locale && (locale + s)[|locale|..] == s
  {
    if locale == "" {
      assert locale + s == s;
    } else {
      assert (locale + s)[1..] == locale[1..] + s;
      LocaleIsCut(locale[1..], s);
    }
  }

  lemma ListedStarts(locales: seq<string>, gaps: seq<nat>, end: nat)
    requires |gaps| == |locales| && (locales != [] ==> gaps[0] > 0)
    ensures Listed(locales, gaps, end) == "" || Listed(locales, gaps, end)[0] == ':'
  {
    if locales != [] {
      assert Colons(gaps[0])[0] == ':';
    }
  }

  lemma FindInBoth(env: Env, chain: seq<FileId>, more: seq<FileId>, codeset: Option<string>, msgid: string)
    ensures FindIn(env, chain + more, codeset, msgid)
            == if FindIn(env, chain, codeset, msgid).Some? then FindIn(env, chain, codeset, msgid)
               else FindIn(env, more, codeset, msgid)
    decreases |chain|
  {
    if chain == [] {
      assert chain + more == more;
    } else {
      assert (chain + more)[1..] == chain[1..] + more;
      FindInBoth(env, chain[1..], more, codeset, msgid);
    }
  }

  // One locale of the list
  lemma ListStep(env: Env, dir: string, codeset: Option<string>, key: Key, gap: nat, locale: string, rest: string)
    requires locale != "" && ':' !in locale && (rest == "" || rest[0] == ':')
    ensures var chain := env.findDomain(dir, locale, key.category, key.domainname);
            var more := FindFrom(env, dir, codeset, key, rest);
            FindFrom(env, dir, codeset, key, Colons(gap) + (locale + rest))
            == if env.secure && '/' in locale then more
               else if locale == "C" || locale == "POSIX" then None
               else
                 var found := FindIn(env, chain.GetOr([]), codeset, key.msgid);
                 if found.Some? then found else more
  {
    hide SkipColons, UpToColon, FindIn;
    ColonsAreSkipped(gap, locale + rest);
    LocaleIsCut(locale, rest);
    assert FindIn(env, [], codeset, key.msgid) == None by {
      NoFileGives(env, [], codeset, key.msgid);
    }
  }

  lemma ListStepIn(env: Env, dir: string, codeset: Option<string>, key: Key, gap: nat, locale: string, rest: string,
                   more: seq<FileId>)
    requires locale != "" && ':' !in locale && (rest == "" || rest[0] == ':')
    requires FindFrom(env, dir, codeset, key, rest) == FindIn(env, more, codeset, key.msgid)
    ensures FindFrom(env, dir, codeset, key, Colons(gap) + (locale + rest))
            == FindIn(env, FilesOf(env, dir, key, locale, more), codeset, key.msgid)
  {
    hide FindFrom, FindIn;
    ListStep(env, dir, codeset, key, gap, locale, rest);
    var chain := env.findDomain(dir, locale, key.category, key.domainname).GetOr([]);
    FindInBoth(env, chain, more, codeset, key.msgid);
    assert [] + more == more;
    NoFileGives(env, [], codeset, key.msgid);
  }

  // The search along a category value is a search of these files
  lemma {:induction false} ListIsSearched(env: Env, dir: string, codeset: Option<string>, key: Key,
                                          locales: seq<string>, gaps: seq<nat>, end: nat)
    requires LocalesOk(locales, gaps)
    ensures FindFrom(env, dir, codeset, key, Listed(locales, gaps, end))
            == FindIn(env, Files(env, dir, key, locales), codeset, key.msgid)
    decreases |locales|
  {
    hide FindFrom, FindIn, FilesOf;
    if locales == [] {
      NothingListed(env, dir, codeset, key, end);
      NoFileGives(env, [], codeset, key.msgid);
    } else {
      ListedStarts(locales[1..], gaps[1..], end);
      ListIsSearched(env, dir, codeset, key, locales[1..], gaps[1..], end);
      ListStepIn(env, dir, codeset, key, gaps[0], locales[0], Listed(locales[1..], gaps[1..], end),
                 Files(env, dir, key, locales[1..]));
    }
  }

  lemma NothingListed(env: Env, dir: string, codeset: Option<string>, key: Key, end: nat)
    ensures FindFrom(env, dir, codeset, key, Colons(end)) == None
  {
    ColonsAreSkipped(end, "");
    assert Colons(end) + "" == Colons(end);
  }

  lemma {:induction false} FirstFileGives(env: Env, files: seq<FileId>, codeset: Option<string>, msgid: string, k: nat)
    requires k < |files| && env.message(files[k], msgid).Some?
    requires forall j :: 0 <= j < k ==> env.message(files[j], msgid) == None
    ensures FindIn(env, files, codeset, msgid)
            == Some((files[k], env.convert(files[k], codeset, env.message(files[k], msgid).value)))
  {
    if k > 0 {
      FirstFileGives(env, files[1..], codeset, msgid, k - 1);
    }
  }

  lemma {:induction false} NoFileGives(env: Env, files: seq<FileId>, codeset: Option<string>, msgid: string)
    requires forall f :: f in files ==> env.message(f, msgid) == None
    ensures FindIn(env, files, codeset, msgid) == None
  {
    if files != [] {
      NoFileGives(env, files[1..], codeset, msgid);
    }
  }

  // ---------------------------------------------------------------
  // Replies, by the bindings of the moment

  // The directory of a domain: the default one, the one bound, or that one below the
  // working directory
  ghost predicate IsDirectory(env: Env, b: Option<Binding>, dir: string) {
    match b
    case None => dir == env.defaultDirname
    case Some(b) => if "/" <= b.dirname then dir == b.dirname else env.absolute(b.dirname) == Some(dir)
  }

  function KeyOf(s: State, req: Request): Key
    requires req.msgid1.Some?
  {
    Key(req.msgid1.value, req.domainname.GetOr(s.default), req.category)
  }

  // The files that a request asks, where the category value lists these locales
  ghost predicate Asks(env: Env, s: State, req: Request, locales: seq<string>, files: seq<FileId>) {
    && req.msgid1.Some?
    && (exists gaps, end :: LocalesOk(locales, gaps) && env.categoryValue(req.category) == Listed(locales, gaps, end))
    && exists dir :: IsDirectory(env, BindingOf(s.bound, req.domainname.GetOr(s.default)), dir)
                     && files == Files(env, dir, KeyOf(s, req), locales)
  }

  lemma SearchOfFiles(env: Env, s: State, req: Request, locales: seq<string>, files: seq<FileId>)
    requires Asks(env, s, req, locales, files)
    ensures var b := BindingOf(s.bound, req.domainname.GetOr(s.default));
            Find(env, b, KeyOf(s, req)) == FindIn(env, files, CodesetOf(b), req.msgid1.value)
  {
    hide FindFrom, FindIn, Files;
    var b, key := BindingOf(s.bound, req.domainname.GetOr(s.default)), KeyOf(s, req);
    var gaps, end :| LocalesOk(locales, gaps) && env.categoryValue(req.category) == Listed(locales, gaps, end);
    var dir :| IsDirectory(env, b, dir) && files == Files(env, dir, key, locales);
    assert DirnameOf(env, b) == Some(dir);
    ListIsSearched(env, dir, CodesetOf(b), key, locales, gaps, end);
  }

  // No file has the message: the reply is the message itself, or the plural by the
  // rule of English
  lemma UntranslatedReply(env: Env, s: State, req: Request, locales: seq<string>, files: seq<FileId>)
    requires Asks(env, s, req, locales, files)
    requires forall f :: f in files ==> env.message(f, req.msgid1.value) == None
    ensures Answer(env, s, req) == if req.plural && req.n != 1 then req.msgid2 else req.msgid1
  {
    hide Find, FindIn;
    SearchOfFiles(env, s, req, locales, files);
    NoFileGives(env, files, CodesetOf(BindingOf(s.bound, req.domainname.GetOr(s.default))), req.msgid1.value);
  }

  // The same where there is no working directory to put before a relative one
  lemma NowhereReply(env: Env, s: State, req: Request, b: Binding)
    requires req.msgid1.Some? && BindingOf(s.bound, req.domainname.GetOr(s.default)) == Some(b)
    requires !("/" <= b.dirname) && env.absolute(b.dirname) == None
    ensures Answer(env, s, req) == if req.plural && req.n != 1 then req.msgid2 else req.msgid1
  {
    hide FindFrom;
  }

  // File k is the first that has the message: the reply is its text in the codeset of
  // the domain, or the variant of that text for the number
  lemma TranslatedReply(env: Env, s: State, req: Request, locales: seq<string>, files: seq<FileId>, k: nat)
    requires Asks(env, s, req, locales, files)
    requires k < |files| && env.message(files[k], req.msgid1.value).Some?
    requires forall j :: 0 <= j < k ==> env.message(files[j], req.msgid1.value) == None
    ensures var b := BindingOf(s.bound, req.domainname.GetOr(s.default));
            var codeset := if b.None? then None else b.value.codeset;
            var text := env.convert(files[k], codeset, env.message(files[k], req.msgid1.value).value);
            Answer(env, s, req) == Some(if req.plural then env.pluralVariant(files[k], req.n, text) else text)
  {
    hide Find, FindIn;
    SearchOfFiles(env, s, req, locales, files);
    FirstFileGives(env, files, CodesetOf(BindingOf(s.bound, req.domainname.GetOr(s.default))), req.msgid1.value, k);
  }

  lemma NoMessageNoReply(env: Env, s: State, req: Request)
    ensures req.msgid1.None? ==> Answer(env, s, req) == None
  {
  }

  // ---------------------------------------------------------------
  // The same of any run over domains that share no file

  lemma RunAnswers(env: Env, calls: seq<Call>, req: Request, names: set<string>)
    requires NamesFiles(env) && Apart(names) && Within(env, INITIAL, calls + [DcIgettext(req)], names)
    ensures var s := After(env, INITIAL, calls); Exec(env, s, DcIgettext(req)).1 == Answer(env, s, req)
  {
    hide Coherent, NamesFiles, Apart, Within, AllRight, Exec, Answer;
    InitialIsCoherent(env);
    ApartIsRight(env, INITIAL, {}, calls + [DcIgettext(req)], names);
    WrongInside(env, INITIAL, calls, DcIgettext(req));
  }

  lemma UntranslatedInRun(env: Env, calls: seq<Call>, req: Request, names: set<string>, locales: seq<string>,
                          files: seq<FileId>)
    requires NamesFiles(env) && Apart(names) && Within(env, INITIAL, calls + [DcIgettext(req)], names)
    requires Asks(env, After(env, INITIAL, calls), req, locales, files)
    requires forall f :: f in files ==> env.message(f, req.msgid1.value) == None
    ensures Exec(env, After(env, INITIAL, calls), DcIgettext(req)).1
            == if req.plural && req.n != 1 then req.msgid2 else req.msgid1
  {
    hide NamesFiles, Apart, Within, Exec, Answer, Asks;
    RunAnswers(env, calls, req, names);
    UntranslatedReply(env, After(env, INITIAL, calls), req, locales, files);
  }

  lemma TranslatedInRun(env: Env, calls: seq<Call>, req: Request, names: set<string>, locales: seq<string>,
                        files: seq<FileId>, k: nat)
    requires NamesFiles(env) && Apart(names) && Within(env, INITIAL, calls + [DcIgettext(req)], names)
    requires Asks(env, After(env, INITIAL, calls), req, locales, files)
    requires k < |files| && env.message(files[k], req.msgid1.value).Some?
    requires forall j :: 0 <= j < k ==> env.message(files[j], req.msgid1.value) == None
    ensures var s := After(env, INITIAL, calls);
            var b := BindingOf(s.bound, req.domainname.GetOr(s.default));
            var codeset := if b.None? then None else b.value.codeset;
            var text := env.convert(files[k], codeset, env.message(files[k], req.msgid1.value).value);
            Exec(env, s, DcIgettext(req)).1
            == Some(if req.plural then env.pluralVariant(files[k], req.n, text) else text)
  {
    hide NamesFiles, Apart, Within, Exec, Answer, Asks;
    RunAnswers(env, calls, req, names);
    TranslatedReply(env, After(env, INITIAL, calls), req, locales, files, k);
  }

  lemma NothingFound(env: Env, req: Request)
    requires env == World((dir, locale, category, name) => None) && req.msgid1.Some?
    ensures NamesFiles(env) && Answer(env, INITIAL, req) == if req.plural && req.n != 1 then req.msgid2 else req.msgid1
  {
    hide Answer;
    assert Listed(["fr"], [0], 0) == "fr";
    assert LocalesOk(["fr"], [0]);
    assert IsDirectory(env, None, env.defaultDirname);
    assert Files(env, env.defaultDirname, KeyOf(INITIAL, req), ["fr"]) == [];
    UntranslatedReply(env, INITIAL, req, ["fr"], []);
  }

  // ngettext where nothing is installed
  method NothingInstalled() returns (library: Library, one: Option<string>, two: Option<string>)
    ensures one == Some("one file") && two == Some("files")
  {
    hide Find, LookInLocales, Coherent, NamesFiles, Apart;
    var none: set<string> := {};
    assert none + {DEFAULT_DOMAIN} == {DEFAULT_DOMAIN} + {DEFAULT_DOMAIN} == {DEFAULT_DOMAIN};
    var env := World((dir, locale, category, name) => None);
    library := new Library(env);
    var single := Request(None, Some("one file"), Some("files"), true, 1, 5);
    var several := single.(n := 2);
    PlainNamesAreApart({DEFAULT_DOMAIN});
    NothingFound(env, single);
    NothingFound(env, several);
    one := library.DcIgettext(single);
    two := library.DcIgettext(several);
  }

  // ---------------------------------------------------------------
  // The effect of bindings

  // A directory that is bound replaces any earlier one, is what is told from then on,
  // and leaves the codeset and all other domains alone
  lemma DirectoryIsReplaced(env: Env, s: State, name: string, dir: string)
    requires name != ""
    ensures var (s', r) := BindDirname(env, s, Some(name), Some(dir));
            var b, b' := BindingOf(s.bound, name), BindingOf(s'.bound, name);
            && r == Some(dir) && BindDirname(env, s', Some(name), None) == (s', Some(dir))
            && b'.Some? && b'.value.dirname == dir && CodesetOf(b') == CodesetOf(b)
            && (forall other :: other != name ==> BindingOf(s'.bound, other) == BindingOf(s.bound, other))
            && (s'.counter == s.counter <==> b.Some? && b.value.dirname == dir)
  {
  }

  // Likewise for a codeset
  lemma CodesetIsReplaced(env: Env, s: State, name: string, codeset: string)
    requires name != ""
    ensures var (s', r) := BindCodeset(env, s, Some(name), Some(codeset));
            var b, b' := BindingOf(s.bound, name), BindingOf(s'.bound, name);
            && r == Some(codeset) && BindCodeset(env, s', Some(name), None) == (s', Some(codeset))
            && b'.Some? && b'.value.codeset == Some(codeset)
            && b'.value.dirname == (if b.Some? then b.value.dirname else env.defaultDirname)
            && (forall other :: other != name ==> BindingOf(s'.bound, other) == BindingOf(s.bound, other))
            && (s'.counter == s.counter <==> CodesetOf(b) == Some(codeset))
  {
  }

  // Asking for a binding changes nothing, and tells the default where there is none
  lemma AskingChangesNothing(env: Env, s: State, domainname: Option<string>)
    ensures BindDirname(env, s, domainname, None)
            == (s, if domainname == None || domainname == Some("") then None
                   else match BindingOf(s.bound, domainname.value)
                        case None => Some(env.defaultDirname)
                        case Some(b) => Some(b.dirname))
    ensures BindCodeset(env, s, domainname, None)
            == (s, if domainname == None || domainname == Some("") then None
                   else match BindingOf(s.bound, domainname.value)
                        case None => None
                        case Some(b) => b.codeset)
  {
  }

  // The domain chosen is the one of requests without one; no name chooses "messages"
  lemma ChosenDomainIsUsed(env: Env, s: State, name: string, req: Request)
    requires req.domainname == None
    ensures var (s', r) := ChooseDomain(s, Some(name));
            var chosen := if name == "" then "messages" else name;
            && r == Some(chosen) && ChooseDomain(s', None) == (s', Some(chosen))
            && s'.bound == s.bound && s'.counter == s.counter + 1
            && Get(env, s', req) == Get(env, s', req.(domainname := Some(chosen)))
            && Answer(env, s', req) == Answer(env, s', req.(domainname := Some(chosen)))
  {
    hide LookUp, Find;
  }
}
