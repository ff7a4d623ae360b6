// Translation by the bindings of the moment, and the state that persists between calls:
// bindings, known translations and converters (intl/bindtextdom.c, intl/textdomain.c,
// intl/dcigettext.c).
module Coherence {
  import opened Words
  import opened CStrings
  import opened Bindings
  import opened DomainFiles

  const DEFAULT_DOMAIN: string := "messages"

  // What a call finds outside the library, taken as fixed: the category values, the
  // working directory, the catalogue files and the conversion of their contents
  datatype Env = Env(
    defaultDirname: string,
    categoryValue: int -> string,
    absolute: string -> Option<string>,
    secure: bool,
    findDomain: (string, string, int, string) -> Option<seq<FileId>>,
    message: (FileId, string) -> Option<string>,
    convert: (FileId, Option<string>, string) -> string,
    pluralVariant: (FileId, nat, string) -> string)

  // The name of a file ends in the category and the domain that it was found for
  ghost predicate NamesFiles(env: Env) {
    forall dir, locale, category, name ::
      var found := env.findDomain(dir, locale, category, name);
      found.Some? ==> forall f :: f in found.value ==> NamedFor(f, category, name)
  }

  // ---------------------------------------------------------------
  // The reference: translation without any cache, as a function of the bindings

  function CodesetOf(b: Option<Binding>): Option<string> {
    if b.Some? then b.value.codeset else None
  }

  function CntrOf(b: Option<Binding>): nat {
    if b.Some? then b.value.codesetCntr else 0
  }

  function DirnameOf(env: Env, b: Option<Binding>): Option<string> {
    if b.None? then Some(env.defaultDirname)
    else if b.value.dirname != "" && b.value.dirname[0] == '/' then Some(b.value.dirname)
    else env.absolute(b.value.dirname)
  }

  function SkipColons(value: string): (r: string)
    ensures |r| <= |value| && (r != "" ==> r[0] != ':')
  {
    if value != "" && value[0] == ':' then SkipColons(value[1..]) else value
  }

  function UpToColon(value: string): (r: string)
    ensures |r| <= |value| && ':' !in r && (value != "" && value[0] != ':' ==> r != "")
  {
    if value == "" || value[0] == ':' then "" else [value[0]] + UpToColon(value[1..])
  }

  // The translation in a file or, failing that, in its successors
  function FindIn(env: Env, chain: seq<FileId>, codeset: Option<string>, msgid: string): Option<(FileId, string)> {
    if chain == [] then None
    else
      match env.message(chain[0], msgid)
      case Some(raw) => Some((chain[0], env.convert(chain[0], codeset, raw)))
      case None => FindIn(env, chain[1..], codeset, msgid)
  }

  datatype Key = Key(msgid: string, domainname: string, category: int)

  // The translation in the first suitable locale of a list
  function FindFrom(env: Env, dir: string, codeset: Option<string>, key: Key, value: string): Option<(FileId, string)>
    decreases |value|
  {
    var rest := SkipColons(value);
    if rest == "" then None
    else
      var single := UpToColon(rest);
      var more := rest[|single|..];
      if env.secure && '/' in single then FindFrom(env, dir, codeset, key, more)
      else if single == "C" || single == "POSIX" then None
      else
        match env.findDomain(dir, single, key.category, key.domainname)
        case None => FindFrom(env, dir, codeset, key, more)
        case Some(chain) =>
          var found := FindIn(env, chain, codeset, key.msgid);
          if found.Some? then found else FindFrom(env, dir, codeset, key, more)
  }

  function Find(env: Env, b: Option<Binding>, key: Key): Option<(FileId, string)> {
    match DirnameOf(env, b)
    case None => None
    case Some(dir) => FindFrom(env, dir, CodesetOf(b), key, env.categoryValue(key.category))
  }

  datatype Request = Request(domainname: Option<string>, msgid1: Option<string>, msgid2: Option<string>, plural: bool,
                             n: nat, category: int)

  function Present(env: Env, req: Request, found: Option<(FileId, string)>): Option<string> {
    match found
    case Some((file, text)) => Some(if req.plural then env.pluralVariant(file, req.n, text) else text)
    case None => if !req.plural || req.n == 1 then req.msgid1 else req.msgid2
  }

  function Answer(env: Env, s: State, req: Request): Option<string> {
    if req.msgid1.None? then None
    else
      var name := req.domainname.GetOr(s.default);
      Present(env, req, Find(env, BindingOf(s.bound, name), Key(req.msgid1.value, name, req.category)))
  }

  // ---------------------------------------------------------------
  // The state that persists between calls

  // A known translation, with the file it is from and the count at the time
  datatype Known = Known(counter: nat, file: FileId, translation: string)

  // The converter of a loaded file: the count it was made for, its output codeset,
  // and the strings converted so far
  datatype Converter = Converter(codesetCntr: nat, codeset: Option<string>, tab: map<string, string>)

  type Converters = map<FileId, Converter>

  datatype State = State(bound: map<string, Binding>, counter: nat, default: string, cache: map<Key, Known>,
                         convs: Converters)

  const INITIAL: State := State(map[], 0, DEFAULT_DOMAIN, map[], map[])

  // The effect of set_binding_values on the binding of its domain
  function Rebound(env: Env, b: Option<Binding>, name: string, dirname: Option<string>,
                   codeset: Option<string>): Option<Binding> {
    match b
    case None =>
      if dirname.None? && codeset.None? then None
      else Some(Binding(name, dirname.GetOr(env.defaultDirname), codeset, if codeset.Some? then 1 else 0))
    case Some(prev) =>
      var changed := codeset.Some? && codeset != prev.codeset;
      Some(prev.(dirname := dirname.GetOr(prev.dirname), codeset := if changed then codeset else prev.codeset,
                 codesetCntr := prev.codesetCntr + if changed then 1 else 0))
  }

  // set_binding_values for a domain name that is not empty.  A parameter is None where
  // the attribute is not to be changed.
  function Rebind(env: Env, s: State, name: string, dirname: Option<string>, codeset: Option<string>): State {
    var b := BindingOf(s.bound, name);
    var b' := Rebound(env, b, name, dirname, codeset);
    if b' == b then s else s.(bound := s.bound[name := b'.value], counter := s.counter + 1)
  }

  // bindtextdomain
  function BindDirname(env: Env, s: State, domainname: Option<string>, dirname: Option<string>)
    : (State, Option<string>)
  {
    if domainname.GetOr("") == "" then (s, None)
    else
      var s' := Rebind(env, s, domainname.value, dirname, None);
      var b := BindingOf(s'.bound, domainname.value);
      (s', Some(if b.Some? then b.value.dirname else env.defaultDirname))
  }

  // bind_textdomain_codeset
  function BindCodeset(env: Env, s: State, domainname: Option<string>, codeset: Option<string>)
    : (State, Option<string>)
  {
    if domainname.GetOr("") == "" then (s, None)
    else
      var s' := Rebind(env, s, domainname.value, None, codeset);
      (s', CodesetOf(BindingOf(s'.bound, domainname.value)))
  }

  // textdomain
  function ChooseDomain(s: State, domainname: Option<string>): (State, Option<string>) {
    match domainname
    case None => (s, Some(s.default))
    case Some(name) =>
      var default := if name == "" then DEFAULT_DOMAIN else name;
      (s.(default := default, counter := s.counter + 1), Some(default))
  }

  function ConverterFor(b: Option<Binding>): Converter {
    Converter(CntrOf(b), CodesetOf(b), map[])
  }

  // The converter that _nl_find_msg uses: a new one where the count is another
  function Renewed(c: Converter, b: Option<Binding>): Converter {
    if c.codesetCntr != CntrOf(b) then ConverterFor(b) else c
  }

  // _nl_find_msg: each string is converted once by one converter
  function LookInFile(env: Env, convs: Converters, f: FileId, b: Option<Binding>, msgid: string)
    : (Converters, Option<string>)
  {
    var c := if f in convs then convs[f] else ConverterFor(b);
    match env.message(f, msgid)
    case None => (convs[f := c], None)
    case Some(raw) =>
      var now := Renewed(c, b);
      var text := if msgid in now.tab then now.tab[msgid] else env.convert(f, now.codeset, raw);
      (convs[f := now.(tab := now.tab[msgid := text])], Some(text))
  }

  // A file and its successors
  function LookInChain(env: Env, convs: Converters, chain: seq<FileId>, b: Option<Binding>, msgid: string)
    : (Converters, Option<(FileId, string)>)
    decreases |chain|
  {
    if chain == [] then (convs, None)
    else
      var (convs', text) := LookInFile(env, convs, chain[0], b, msgid);
      if text.Some? then (convs', Some((chain[0], text.value)))
      else LookInChain(env, convs', chain[1..], b, msgid)
  }

  // The locales of a category value, one after the other
  function LookInLocales(env: Env, convs: Converters, dir: string, b: Option<Binding>, key: Key, value: string)
    : (Converters, Option<(FileId, string)>)
    decreases |value|
  {
    var rest := SkipColons(value);
    if rest == "" then (convs, None)
    else
      var single := UpToColon(rest);
      var more := rest[|single|..];
      if env.secure && '/' in single then LookInLocales(env, convs, dir, b, key, more)
      else if single == "C" || single == "POSIX" then (convs, None)
      else
        match env.findDomain(dir, single, key.category, key.domainname)
        case None => LookInLocales(env, convs, dir, b, key, more)
        case Some(chain) =>
          var (convs', found) := LookInChain(env, convs, chain, b, key.msgid);
          if found.Some? then (convs', found) else LookInLocales(env, convs', dir, b, key, more)
  }

  // dcigettext behind the cache
  function LookUp(env: Env, s: State, key: Key): (State, Option<(FileId, string)>) {
    var b := BindingOf(s.bound, key.domainname);
    match DirnameOf(env, b)
    case None => (s, None)
    case Some(dir) =>
      var (convs, found) := LookInLocales(env, s.convs, dir, b, key, env.categoryValue(key.category));
      var s' := s.(convs := convs);
      if found.None? then (s', None)
      else (s'.(cache := s.cache[key := Known(s.counter, found.value.0, found.value.1)]), found)
  }

  // dcigettext
  function Get(env: Env, s: State, req: Request): (State, Option<string>) {
    if req.msgid1.None? then (s, None)
    else
      var key := Key(req.msgid1.value, req.domainname.GetOr(s.default), req.category);
      if key in s.cache && s.cache[key].counter == s.counter then
        (s, Present(env, req, Some((s.cache[key].file, s.cache[key].translation))))
      else
        var (s', found) := LookUp(env, s, key);
        (s', Present(env, req, found))
  }

  // ---------------------------------------------------------------
  // What every call keeps

  ghost predicate CounterMatches(b: Option<Binding>) {
    CntrOf(b) == 0 <==> CodesetOf(b) == None
  }

  ghost predicate CountersMatch(bound: map<string, Binding>) {
    "" !in bound && forall name :: CounterMatches(BindingOf(bound, name))
  }

  // A converter of the current count is one for the current codeset
  ghost predicate Current(c: Converter, b: Option<Binding>) {
    && c.codesetCntr <= CntrOf(b)
    && (c.codesetCntr == CntrOf(b) ==> c.codeset == CodesetOf(b))
  }

  ghost predicate Converts(env: Env, f: FileId, c: Converter) {
    forall m :: m in c.tab ==>
      env.message(f, m) == None || c.tab[m] == env.convert(f, c.codeset, env.message(f, m).value)
  }

  // Only the domains asked for so far have had converters made
  ghost predicate ConverterOk(env: Env, f: FileId, c: Converter, bound: map<string, Binding>, used: set<string>) {
    && Converts(env, f, c)
    && (c.codesetCntr == 0 ==> c.codeset == None)
    && (c.codesetCntr > 0 ==> exists d :: d in used && d != "" && Serves(f, d))
    && forall d :: d in used && d != "" && Serves(f, d) ==> Current(c, BindingOf(bound, d))
  }

  ghost predicate ConvertersOk(env: Env, convs: Converters, bound: map<string, Binding>, used: set<string>) {
    forall f :: f in convs ==> ConverterOk(env, f, convs[f], bound, used)
  }

  // A known translation of the current count is the right one
  ghost predicate Fresh(env: Env, key: Key, k: Known, b: Option<Binding>, counter: nat) {
    && k.counter <= counter
    && (k.counter == counter ==> Find(env, b, key) == Some((k.file, k.translation)))
  }

  ghost predicate CacheFresh(env: Env, cache: map<Key, Known>, bound: map<string, Binding>, counter: nat) {
    forall key :: key in cache ==> Fresh(env, key, cache[key], BindingOf(bound, key.domainname), counter)
  }

  // The state after calls that asked for the given domains
  ghost predicate Coherent(env: Env, s: State, used: set<string>) {
    && CountersMatch(s.bound)
    && ConvertersOk(env, s.convs, s.bound, used)
    && CacheFresh(env, s.cache, s.bound, s.counter)
  }

  // A change of codeset changes the count, and nothing else does
  lemma CounterStays(env: Env, b: Option<Binding>, name: string, dirname: Option<string>, codeset: Option<string>)
    requires CounterMatches(b)
    ensures CounterMatches(Rebound(env, b, name, dirname, codeset))
  {
  }

  lemma ReboundKeeps(env: Env, c: Converter, b: Option<Binding>, name: string, dirname: Option<string>,
                     codeset: Option<string>)
    requires CounterMatches(b) && Current(c, b)
    ensures Current(c, Rebound(env, b, name, dirname, codeset))
  {
  }

  // A new count makes every known translation stale
  lemma NewCountIsFresh(env: Env, cache: map<Key, Known>, bound: map<string, Binding>, bound': map<string, Binding>,
                        counter: nat)
    requires CacheFresh(env, cache, bound, counter)
    ensures CacheFresh(env, cache, bound', counter + 1)
  {
    hide Find;
    forall key | key in cache
      ensures Fresh(env, key, cache[key], BindingOf(bound', key.domainname), counter + 1)
    {
      assert Fresh(env, key, cache[key], BindingOf(bound, key.domainname), counter);
    }
  }

  lemma ConverterStaysOk(env: Env, f: FileId, c: Converter, bound: map<string, Binding>, used: set<string>,
                         name: string, dirname: Option<string>, codeset: Option<string>, b: Binding)
    requires CountersMatch(bound) && ConverterOk(env, f, c, bound, used)
    requires Rebound(env, BindingOf(bound, name), name, dirname, codeset) == Some(b)
    ensures ConverterOk(env, f, c, bound[name := b], used)
  {
    hide Rebound, Current, CounterMatches, Serves, Converts;
    forall d | d in used && d != "" && Serves(f, d)
      ensures Current(c, BindingOf(bound[name := b], d))
    {
      assert Current(c, BindingOf(bound, d));
      if d == name {
        ReboundKeeps(env, c, BindingOf(bound, name), name, dirname, codeset);
      }
    }
  }

  // Bindings may change at any time
  lemma RebindKeeps(env: Env, s: State, used: set<string>, name: string, dirname: Option<string>,
                    codeset: Option<string>)
    requires Coherent(env, s, used) && name != ""
    ensures Coherent(env, Rebind(env, s, name, dirname, codeset), used)
  {
    hide Fresh, ConverterOk, CounterMatches;
    var s' := Rebind(env, s, name, dirname, codeset);
    if s' != s {
      var b := BindingOf(s.bound, name);
      NewCountIsFresh(env, s.cache, s.bound, s'.bound, s.counter);
      forall f | f in s.convs
        ensures ConverterOk(env, f, s.convs[f], s'.bound, used)
      {
        ConverterStaysOk(env, f, s.convs[f], s.bound, used, name, dirname, codeset, s'.bound[name]);
      }
      forall d: string
        ensures CounterMatches(BindingOf(s'.bound, d))
      {
        assert CounterMatches(BindingOf(s.bound, d));
        if d == name {
          CounterStays(env, b, name, dirname, codeset);
        }
      }
    }
  }

  lemma ChooseKeeps(env: Env, s: State, used: set<string>, domainname: Option<string>)
    requires Coherent(env, s, used)
    ensures Coherent(env, ChooseDomain(s, domainname).0, used)
  {
    NewCountIsFresh(env, s.cache, s.bound, s.bound, s.counter);
  }

  // ---------------------------------------------------------------
  // Lookup gives the answer of the moment, if the domains are apart

  // A domain asked for the first time finds no converter but those without a count
  lemma UsedGrows(env: Env, s: State, used: set<string>, name: string)
    requires Coherent(env, s, used) && Apart(used + {name})
    ensures Coherent(env, s, used + {name})
  {
    hide Find, Converts, Serves, CacheFresh;
    forall f | f in s.convs
      ensures ConverterOk(env, f, s.convs[f], s.bound, used + {name})
    {
      var c := s.convs[f];
      assert ConverterOk(env, f, c, s.bound, used);
      if c.codesetCntr > 0 && name != "" && Serves(f, name) {
        var d :| d in used && d != "" && Serves(f, d);
        assert Shares(d, name);
        assert d == name;
      }
      assert CounterMatches(BindingOf(s.bound, name));
    }
  }

  // What one file gives for a message
  function Converted(env: Env, f: FileId, codeset: Option<string>, msgid: string): Option<string> {
    match env.message(f, msgid)
    case None => None
    case Some(raw) => Some(env.convert(f, codeset, raw))
  }

  // The converter of a file that serves a domain, whether new or met
  ghost predicate Usable(env: Env, f: FileId, c: Converter, b: Option<Binding>) {
    Converts(env, f, c) && Current(Renewed(c, b), b)
  }

  lemma MetIsUsable(env: Env, f: FileId, c: Converter, bound: map<string, Binding>, used: set<string>, name: string)
    requires CountersMatch(bound) && ConverterOk(env, f, c, bound, used) && name in used && Serves(f, name)
    ensures Usable(env, f, c, BindingOf(bound, name))
  {
    hide Converts, Serves;
    assert CounterMatches(BindingOf(bound, name));
  }

  lemma {:induction false} UsedIsOk(env: Env, f: FileId, c: Converter, bound: map<string, Binding>,
                                    used: set<string>, name: string)
    requires CountersMatch(bound) && Apart(used) && name in used && Serves(f, name)
    requires Converts(env, f, c) && c.codesetCntr == CntrOf(BindingOf(bound, name))
    requires c.codeset == CodesetOf(BindingOf(bound, name))
    ensures ConverterOk(env, f, c, bound, used)
  {
    hide Converts, Serves;
    assert CounterMatches(BindingOf(bound, name));
    forall d | d in used && d != "" && Serves(f, d)
      ensures Current(c, BindingOf(bound, d))
    {
      assert CounterMatches(BindingOf(bound, d));
      if name != "" {
        assert Shares(d, name);
      }
    }
  }

  lemma FileIsRight(env: Env, convs: Converters, bound: map<string, Binding>, used: set<string>, f: FileId,
                    name: string, msgid: string)
    requires CountersMatch(bound) && Apart(used) && name in used && Serves(f, name)
    requires ConvertersOk(env, convs, bound, used)
    ensures var b := BindingOf(bound, name);
            var (convs', text) := LookInFile(env, convs, f, b, msgid);
            ConvertersOk(env, convs', bound, used) && text == Converted(env, f, CodesetOf(b), msgid)
  {
    hide ConverterOk, Serves, Apart;
    var b := BindingOf(bound, name);
    var (convs', text) := LookInFile(env, convs, f, b, msgid);
    if f !in convs {
      UsedIsOk(env, f, ConverterFor(b), bound, used, name);
    }
    var c := if f in convs then convs[f] else ConverterFor(b);
    MetIsUsable(env, f, c, bound, used, name);
    if env.message(f, msgid).Some? {
      UsedIsOk(env, f, convs'[f], bound, used, name);
    }
    forall g | g in convs'
      ensures ConverterOk(env, g, convs'[g], bound, used)
    {
    }
  }

  lemma {:induction false} ChainIsRight(env: Env, convs: Converters, bound: map<string, Binding>, used: set<string>,
                                        chain: seq<FileId>, name: string, msgid: string)
    requires CountersMatch(bound) && Apart(used) && name in used && forall f :: f in chain ==> Serves(f, name)
    requires ConvertersOk(env, convs, bound, used)
    ensures var b := BindingOf(bound, name);
            var (convs', found) := LookInChain(env, convs, chain, b, msgid);
            ConvertersOk(env, convs', bound, used) && found == FindIn(env, chain, CodesetOf(b), msgid)
    decreases |chain|
  {
    hide ConvertersOk, Serves, Apart, LookInFile, CountersMatch;
    if chain != [] {
      FileIsRight(env, convs, bound, used, chain[0], name, msgid);
      var (convs', text) := LookInFile(env, convs, chain[0], BindingOf(bound, name), msgid);
      if text.None? {
        ChainIsRight(env, convs', bound, used, chain[1..], name, msgid);
      }
    }
  }

  lemma {:induction false} LocalesAreRight(env: Env, convs: Converters, bound: map<string, Binding>,
                                           used: set<string>, dir: string, key: Key, value: string)
    requires CountersMatch(bound) && Apart(used) && key.domainname in used && NamesFiles(env)
    requires ConvertersOk(env, convs, bound, used)
    ensures var b := BindingOf(bound, key.domainname);
            var (convs', found) := LookInLocales(env, convs, dir, b, key, value);
            ConvertersOk(env, convs', bound, used) && found == FindFrom(env, dir, CodesetOf(b), key, value)
    decreases |value|
  {
    hide ConvertersOk, Apart, LookInChain, CountersMatch, SkipColons, UpToColon, NamedFor, BindingOf;
    var b := BindingOf(bound, key.domainname);
    var rest := SkipColons(value);
    if rest != "" {
      var single := UpToColon(rest);
      var more := rest[|single|..];
      if env.secure && '/' in single {
        LocalesAreRight(env, convs, bound, used, dir, key, more);
      } else if single != "C" && single != "POSIX" {
        var chain := env.findDomain(dir, single, key.category, key.domainname);
        if chain.None? {
          LocalesAreRight(env, convs, bound, used, dir, key, more);
        } else {
          assert forall f :: f in chain.value ==> NamedFor(f, key.category, key.domainname);
          ChainIsRight(env, convs, bound, used, chain.value, key.domainname, key.msgid);
          var (convs', found) := LookInChain(env, convs, chain.value, b, key.msgid);
          if found.None? {
            LocalesAreRight(env, convs', bound, used, dir, key, more);
          }
        }
      }
    }
  }

  lemma LookUpIsRight(env: Env, s: State, used: set<string>, key: Key)
    requires Coherent(env, s, used) && Apart(used) && key.domainname in used && NamesFiles(env)
    ensures var (s', found) := LookUp(env, s, key);
            && Coherent(env, s', used)
            && found == Find(env, BindingOf(s.bound, key.domainname), key)
            && s' == s.(cache := s'.cache, convs := s'.convs)
  {
    hide ConvertersOk, Apart, LookInLocales, CountersMatch, FindFrom, NamesFiles;
    var dir := DirnameOf(env, BindingOf(s.bound, key.domainname));
    if dir.Some? {
      LocalesAreRight(env, s.convs, s.bound, used, dir.value, key, env.categoryValue(key.category));
    }
  }

  // dcigettext.  Whatever was bound, chosen and looked up before, the result is the one
  // that the bindings of the moment give, if no two domains asked for share a file.
  lemma GetIsRight(env: Env, s: State, used: set<string>, req: Request)
    requires Coherent(env, s, used) && NamesFiles(env)
    requires Apart(used + {req.domainname.GetOr(s.default)})
    ensures var (s', r) := Get(env, s, req);
            && Coherent(env, s', used + {req.domainname.GetOr(s.default)})
            && r == Answer(env, s, req)
            && s'.bound == s.bound && s'.default == s.default && s'.counter == s.counter
  {
    hide ConvertersOk, Apart, LookUp, CountersMatch, Find, NamesFiles;
    var name := req.domainname.GetOr(s.default);
    UsedGrows(env, s, used, name);
    if req.msgid1.Some? {
      var key := Key(req.msgid1.value, name, req.category);
      if key in s.cache && s.cache[key].counter == s.counter {
        assert Fresh(env, key, s.cache[key], BindingOf(s.bound, name), s.counter);
      } else {
        LookUpIsRight(env, s, used + {name}, key);
      }
    }
  }

  // transcmp: the order of the search tree of known translations
  function TransCmp(a: Key, b: Key): int {
    if Strcmp(a.msgid, b.msgid) != 0 then Strcmp(a.msgid, b.msgid)
    else if Strcmp(a.domainname, b.domainname) != 0 then Strcmp(a.domainname, b.domainname)
    else a.category - b.category
  }

  // It is a strict total order, so the tree holds at most one entry for a key and
  // finds it
  lemma TransCmpIsTotal(a: Key, b: Key, c: Key)
    ensures TransCmp(a, b) == 0 <==> a == b
    ensures TransCmp(a, b) < 0 <==> TransCmp(b, a) > 0
    ensures TransCmp(a, b) < 0 && TransCmp(b, c) < 0 ==> TransCmp(a, c) < 0
  {
    StrcmpIsAntisymmetric(a.msgid, b.msgid);
    StrcmpIsAntisymmetric(b.msgid, a.msgid);
    StrcmpIsAntisymmetric(a.domainname, b.domainname);
    StrcmpIsAntisymmetric(b.domainname, a.domainname);
    if Strcmp(a.msgid, b.msgid) < 0 && Strcmp(b.msgid, c.msgid) < 0 {
      StrcmpIsTransitive(a.msgid, b.msgid, c.msgid);
    }
    if Strcmp(a.domainname, b.domainname) < 0 && Strcmp(b.domainname, c.domainname) < 0 {
      StrcmpIsTransitive(a.domainname, b.domainname, c.domainname);
    }
  }
}
