// The library's global state, changed in place (intl/bindtextdom.c, intl/textdomain.c,
// intl/dcigettext.c).
module Libintl {
  import opened Words
  import opened CStrings
  import opened Bindings
  import opened DomainFiles
  import opened Coherence

  // The changes to a binding that exists
  method Change(env: Env, b: Binding, dirname: Option<string>, codeset: Option<string>)
      returns (r: Binding, modified: bool)
    ensures Rebound(env, Some(b), b.domainname, dirname, codeset) == Some(r)
    ensures modified <==> r != b
  {
    r, modified := b, false;
    if dirname.Some? && Strcmp(dirname.value, r.dirname) != 0 {
      r := r.(dirname := dirname.value);
      modified := true;
    }
    if codeset.Some? && (r.codeset.None? || Strcmp(codeset.value, r.codeset.value) != 0) {
      r := r.(codeset := codeset, codesetCntr := r.codesetCntr + 1);
      modified := true;
    }
  }

  class Library {
    const env: Env
    var bindings: seq<Binding>
    var counter: nat
    var defaultDomain: string
    var cache: map<Key, Known>
    var convs: Converters
    ghost var used: set<string>

    ghost predicate Valid()
      reads this
    {
      Ascending(bindings)
    }

    ghost function Now(): State
      reads this
    {
      State(Table(bindings), counter, defaultDomain, cache, convs)
    }

    // Every known translation and every converter that can be used is up to date
    ghost predicate UpToDate()
      reads this
    {
      Coherent(env, Now(), used)
    }

    constructor (env: Env)
      ensures this.env == env && Valid() && UpToDate()
      ensures Now() == INITIAL && used == {}
    {
      this.env := env;
      bindings := [];
      counter := 0;
      defaultDomain := DEFAULT_DOMAIN;
      cache := map[];
      convs := map[];
      used := {};
    }

    // set_binding_values for a domain name that is not empty
    method Rebind(name: string, dirname: Option<string>, codeset: Option<string>)
      requires Valid() && name != ""
      modifies this`bindings, this`counter
      ensures Valid() && Now() == Coherence.Rebind(env, old(Now()), name, dirname, codeset)
      ensures old(UpToDate()) ==> UpToDate()
    {
      hide Coherent, Ascending, Table;
      ghost var before := bindings;
      var i := FindBinding(bindings, name);
      TableIsBound(bindings, name);
      if i < |bindings| {
        var binding, modified := Change(env, bindings[i], dirname, codeset);
        if modified {
          bindings := Replace(bindings, i, binding);
          counter := counter + 1;
          TableWith(before, bindings, binding);
        }
      } else if dirname.Some? || codeset.Some? {
        var binding := Binding(name, dirname.GetOr(env.defaultDirname), codeset, if codeset.Some? then 1 else 0);
        bindings := Enqueue(bindings, binding);
        counter := counter + 1;
        TableWith(before, bindings, binding);
      }
      if old(UpToDate()) {
        RebindKeeps(env, old(Now()), used, name, dirname, codeset);
      }
    }

    // bindtextdomain
    method BindTextDomain(domainname: Option<string>, dirname: Option<string>) returns (r: Option<string>)
      requires Valid()
      modifies this`bindings, this`counter
      ensures Valid() && (Now(), r) == BindDirname(env, old(Now()), domainname, dirname)
      ensures old(UpToDate()) ==> UpToDate()
    {
      hide Coherent, Coherence.Rebind;
      if domainname.GetOr("") == "" {
        return None;
      }
      Rebind(domainname.value, dirname, None);
      var i := FindBinding(bindings, domainname.value);
      TableIsBound(bindings, domainname.value);
      r := Some(if i < |bindings| then bindings[i].dirname else env.defaultDirname);
    }

    // bind_textdomain_codeset
    method BindTextDomainCodeset(domainname: Option<string>, codeset: Option<string>) returns (r: Option<string>)
      requires Valid()
      modifies this`bindings, this`counter
      ensures Valid() && (Now(), r) == BindCodeset(env, old(Now()), domainname, codeset)
      ensures old(UpToDate()) ==> UpToDate()
    {
      hide Coherent, Coherence.Rebind;
      if domainname.GetOr("") == "" {
        return None;
      }
      Rebind(domainname.value, None, codeset);
      var i := FindBinding(bindings, domainname.value);
      TableIsBound(bindings, domainname.value);
      r := if i < |bindings| then bindings[i].codeset else None;
    }

    // textdomain
    method TextDomain(domainname: Option<string>) returns (r: string)
      requires Valid()
      modifies this`defaultDomain, this`counter
      ensures Valid() && (Now(), Some(r)) == ChooseDomain(old(Now()), domainname)
      ensures old(UpToDate()) ==> UpToDate()
    {
      hide Coherent, Ascending, Table;
      if old(UpToDate()) {
        ChooseKeeps(env, old(Now()), used, domainname);
      }
      if domainname.None? {
        return defaultDomain;
      }
      if domainname.value == "" || Strcmp(domainname.value, DEFAULT_DOMAIN) == 0 {
        defaultDomain := DEFAULT_DOMAIN;
      } else if Strcmp(domainname.value, defaultDomain) != 0 {
        defaultDomain := domainname.value;
      }
      counter := counter + 1;
      return defaultDomain;
    }

    // _nl_find_msg: the converter is made anew when its count is not that of the
    // binding, and each string is converted once
    method FindMsg(f: FileId, b: Option<Binding>, msgid: string) returns (r: Option<string>)
      modifies this`convs
      ensures (convs, r) == LookInFile(env, old(convs), f, b, msgid)
    {
      var c := if f in convs then convs[f] else ConverterFor(b);
      var raw := env.message(f, msgid);
      if raw.Some? {
        c := Renewed(c, b);
        if msgid !in c.tab {
          c := c.(tab := c.tab[msgid := env.convert(f, c.codeset, raw.value)]);
        }
        assert c.tab == c.tab[msgid := c.tab[msgid]];
        r := Some(c.tab[msgid]);
      } else {
        r := None;
      }
      convs := convs[f := c];
    }

    // A file and its successors
    method FindInChain(chain: seq<FileId>, b: Option<Binding>, msgid: string) returns (r: Option<(FileId, string)>)
      modifies this`convs
      ensures (convs, r) == LookInChain(env, old(convs), chain, b, msgid)
    {
      hide LookInFile;
      var rest := chain;
      while rest != []
        invariant LookInChain(env, convs, rest, b, msgid) == LookInChain(env, old(convs), chain, b, msgid)
        decreases |rest|
      {
        var retval := FindMsg(rest[0], b, msgid);
        if retval.Some? {
          return Some((rest[0], retval.value));
        }
        rest := rest[1..];
      }
      return None;
    }

    // The loop over the locales of the category value
    method FindInLocales(dir: string, b: Option<Binding>, key: Key) returns (r: Option<(FileId, string)>)
      modifies this`convs
      ensures (convs, r) == LookInLocales(env, old(convs), dir, b, key, env.categoryValue(key.category))
    {
      hide LookInChain;
      var value := env.categoryValue(key.category);
      ghost var goal := LookInLocales(env, convs, dir, b, key, value);
      while true
        invariant LookInLocales(env, convs, dir, b, key, value) == goal
        decreases |value|
      {
        var rest := SkipColons(value);
        if rest == "" {
          return None;
        }
        var single := UpToColon(rest);
        value := rest[|single|..];
        if !(env.secure && '/' in single) {
          if single == "C" || single == "POSIX" {
            return None;
          }
          var chain := env.findDomain(dir, single, key.category, key.domainname);
          if chain.Some? {
            var found := FindInChain(chain.value, b, key.msgid);
            if found.Some? {
              return found;
            }
          }
        }
      }
    }

    // dcigettext.  Whatever was bound, chosen and looked up before, the result is the
    // one that the bindings of the moment give, unless two of the domains asked for
    // share a file.
    method DcIgettext(req: Request) returns (r: Option<string>)
      requires Valid()
      modifies this`cache, this`convs, this`used
      ensures Valid() && (Now(), r) == Get(env, old(Now()), req)
      ensures used == old(used) + {req.domainname.GetOr(defaultDomain)}
      ensures old(UpToDate()) && NamesFiles(env) && Apart(used) ==>
                UpToDate() && r == Answer(env, Now(), req)
    {
      hide Coherent, NamesFiles, Apart, LookInLocales, Find;
      var name := req.domainname.GetOr(defaultDomain);
      used := used + {name};
      if old(UpToDate()) && NamesFiles(env) && Apart(used) {
        GetIsRight(env, old(Now()), old(used), req);
      }
      if req.msgid1.None? {
        return None;
      }
      var key := Key(req.msgid1.value, name, req.category);
      if key in cache && cache[key].counter == counter {
        var known := cache[key];
        return Present(env, req, Some((known.file, known.translation)));
      }
      var i := FindBinding(bindings, name);
      TableIsBound(bindings, name);
      var b := if i < |bindings| then Some(bindings[i]) else None;
      var dir := DirnameOf(env, b);
      if dir.None? {
        return Present(env, req, None);
      }
      var found := FindInLocales(dir.value, b, key);
      if found.Some? {
        cache := cache[key := Known(counter, found.value.0, found.value.1)];
      }
      return Present(env, req, found);
    }
  }
}
