// What a whole scan of getopt amounts to.
module GetoptFacts {
  import opened Words
  import opened GetoptScan

  // ---------------------------------------------------------------
  // The result is a stable partition of the arguments

  // s is a and b merged, each in order
  ghost predicate Merges(a: seq<string>, b: seq<string>, s: seq<string>) {
    if s == [] then a == [] && b == []
    else
      || (a != [] && a[0] == s[0] && Merges(a[1..], b, s[1..]))
      || (b != [] && b[0] == s[0] && Merges(a, b[1..], s[1..]))
  }

  lemma {:induction false} MergesLeft(a: seq<string>)
    ensures Merges(a, [], a)
  {
    if a != [] {
      MergesLeft(a[1..]);
    }
  }

  lemma {:induction false} MergesRight(b: seq<string>)
    ensures Merges([], b, b)
  {
    if b != [] {
      MergesRight(b[1..]);
    }
  }

  lemma {:induction false} MergesJoin(a: seq<string>, b: seq<string>, s: seq<string>, a': seq<string>, b': seq<string>,
                                      s': seq<string>)
    requires Merges(a, b, s) && Merges(a', b', s')
    ensures Merges(a + a', b + b', s + s')
  {
    if s == [] {
      assert a + a' == a' && b + b' == b' && s + s' == s';
    } else {
      assert (s + s')[1..] == s[1..] + s';
      if a != [] && a[0] == s[0] && Merges(a[1..], b, s[1..]) {
        MergesJoin(a[1..], b, s[1..], a', b', s');
        assert (a + a')[1..] == a[1..] + a';
      } else {
        MergesJoin(a, b[1..], s[1..], a', b', s');
        assert (b + b')[1..] == b[1..] + b';
      }
    }
  }

  lemma {:induction false} MergesCounts(a: seq<string>, b: seq<string>, s: seq<string>)
    requires Merges(a, b, s)
    ensures multiset(s) == multiset(a) + multiset(b) && |s| == |a| + |b|
  {
    if s != [] {
      assert s == [s[0]] + s[1..];
      if a != [] && a[0] == s[0] && Merges(a[1..], b, s[1..]) {
        assert a == [a[0]] + a[1..];
        MergesCounts(a[1..], b, s[1..]);
      } else {
        assert b == [b[0]] + b[1..];
        MergesCounts(a, b[1..], s[1..]);
      }
    }
  }

  // 'opts' and 'nons' make up what comes before the end 'tail' of a list
  ghost predicate Passes(s: seq<string>, opts: seq<string>, nons: seq<string>, tail: seq<string>) {
    exists p :: s == p + tail && Merges(opts, nons, p)
  }

  lemma PassesBy(p: seq<string>, s: seq<string>, opts: seq<string>, nons: seq<string>, tail: seq<string>)
    requires s == p + tail && Merges(opts, nons, p)
    ensures Passes(s, opts, nons, tail)
  {
  }

  lemma PassesJoin(s: seq<string>, opts: seq<string>, nons: seq<string>, mid: seq<string>, opts': seq<string>,
                   nons': seq<string>, tail: seq<string>)
    requires Passes(s, opts, nons, mid) && Passes(mid, opts', nons', tail)
    ensures Passes(s, opts + opts', nons + nons', tail)
  {
    var p :| s == p + mid && Merges(opts, nons, p);
    var p' :| mid == p' + tail && Merges(opts', nons', p');
    MergesJoin(opts, nons, p, opts', nons', p');
    assert s == (p + p') + tail;
  }

  lemma PassesOptions(s: seq<string>, k: nat)
    requires k <= |s|
    ensures Passes(s, s[..k], [], s[k..])
  {
    MergesLeft(s[..k]);
    PassesBy(s[..k], s, s[..k], [], s[k..]);
  }

  lemma PassesNon(s: seq<string>)
    requires s != []
    ensures Passes(s, [], [s[0]], s[1..])
  {
    PassesBy([s[0]], s, [], [s[0]], s[1..]);
  }

  lemma PassesAll(s: seq<string>)
    ensures Passes(s, [], s, [])
  {
    MergesRight(s);
    PassesBy(s, s, [], s, []);
  }

  // The elements that a step passes, merged, are the start of the list
  lemma {:induction false} NextPasses(o: Ordering, rd: Reader, rest: seq<string>, next: string)
    requires MidElement(rest, next) && Shrinks(rd)
    ensures var s := Next(o, rd, rest, next);
            !s.Overrun? ==> Passes(rest, s.opts, s.nons, s.rest)
    decreases |rest|
  {
    var s := Next(o, rd, rest, next);
    if next == "" && rest == [] {
      PassesAll(rest);
    } else if next == "" && rest[0] == "--" {
      PassesOptions(rest, 1);
      assert rest[..1] == ["--"];
      if o == Permute {
        PassesAll(rest[1..]);
        PassesJoin(rest, ["--"], [], rest[1..], [], rest[1..], []);
        assert ["--"] + [] == ["--"] && [] + rest[1..] == rest[1..];
      }
    } else if next == "" && IsNonOption(rest[0]) {
      if o == Permute {
        NextPasses(o, rd, rest[1..], "");
        PassesNon(rest);
        var s' := Next(o, rd, rest[1..], "");
        if !s'.Overrun? {
          PassesJoin(rest, [], [rest[0]], rest[1..], s'.opts, s'.nons, s'.rest);
          assert [] + s'.opts == s'.opts;
        }
      } else {
        PassesOptions(rest, if o == RequireOrder then 0 else 1);
        assert rest[..0] == [] && rest[0..] == rest && rest[..1] == [rest[0]];
      }
    } else if !s.Overrun? {
      PassesOptions(rest, |s.opts|);
    }
  }

  // The options with their arguments and the other elements keep their order, and
  // nothing is lost.  When permuting nothing is left over.
  lemma {:induction false} ScanPartitions(o: Ordering, rd: Reader, rest: seq<string>, next: string)
    requires MidElement(rest, next) && Shrinks(rd) && Scan(o, rd, rest, next).Some?
    ensures var r := Scan(o, rd, rest, next).value;
            && Passes(rest, r.opts, r.nons, r.rest)
            && (o == Permute ==> r.rest == [])
            && (o != Permute ==> r.nons == [])
    decreases |rest|, Left(rest, next)
  {
    NextPasses(o, rd, rest, next);
    NextLeaves(o, rd, rest, next);
    var s := Next(o, rd, rest, next);
    if s.Emit? {
      ScanPartitions(o, rd, s.rest, s.next);
      var r := Scan(o, rd, s.rest, s.next).value;
      PassesJoin(rest, s.opts, s.nons, s.rest, r.opts, r.nons, r.rest);
    }
  }

  lemma {:induction false} NextLeaves(o: Ordering, rd: Reader, rest: seq<string>, next: string)
    requires MidElement(rest, next) && Shrinks(rd)
    ensures var s := Next(o, rd, rest, next);
            && (s.Stop? && o == Permute ==> s.rest == [])
            && (o != Permute ==> s.nons == [])
    decreases |rest|
  {
    if next == "" && rest != [] && rest[0] != "--" && IsNonOption(rest[0]) && o == Permute {
      NextLeaves(o, rd, rest[1..], "");
    }
  }

  // In a permuting scan the result is a partition of exactly the arguments
  lemma StablePartition(rd: Reader, args: seq<string>)
    requires Shrinks(rd) && Scan(Permute, rd, args, "").Some?
    ensures var r := Scan(Permute, rd, args, "").value;
            && Merges(r.opts, r.nons, args)
            && multiset(r.opts + r.nons) == multiset(args)
  {
    ScanPartitions(Permute, rd, args, "");
    var r := Scan(Permute, rd, args, "").value;
    var p :| args == p + r.rest && Merges(r.opts, r.nons, p);
    assert args == p;
    MergesCounts(r.opts, r.nons, args);
  }

  // ---------------------------------------------------------------
  // When a call steps past the end

  // A short option steps past the end exactly when it is a -W whose ambiguous
  // argument ends the list
  lemma ShortOverruns(cfg: Config, next: string, following: seq<string>)
    requires next != "" && WNeedsLongopts(cfg)
    ensures DecodeShort(cfg, next, following).taken > 1 + |following| <==>
            AmbiguousW(cfg, next, following) && |following| == if |next| > 1 then 0 else 1
  {
  }

  // Without -W no scan steps past the end
  lemma {:induction false} NoWNoOverrun(o: Ordering, cfg: Config, rd: Reader, rest: seq<string>, next: string)
    requires MidElement(rest, next) && Realizes(cfg, rd) && !Lists(cfg.optstring, 'W', ';')
    ensures Scan(o, rd, rest, next).Some?
    decreases |rest|, Left(rest, next)
  {
    NextStaysInside(o, cfg, rd, rest, next);
    var s := Next(o, rd, rest, next);
    if s.Emit? {
      NoWNoOverrun(o, cfg, rd, s.rest, s.next);
    }
  }

  lemma DecodeStaysInside(cfg: Config, elem: string, next: string, following: seq<string>)
    requires |elem| >= 2 && next != "" && !Lists(cfg.optstring, 'W', ';')
    ensures Decode(cfg, elem, next, following).taken <= 1 + |following|
  {
    ShortOverruns(cfg, next, following);
  }

  lemma {:induction false} NextStaysInside(o: Ordering, cfg: Config, rd: Reader, rest: seq<string>, next: string)
    requires MidElement(rest, next) && Realizes(cfg, rd) && !Lists(cfg.optstring, 'W', ';')
    ensures !Next(o, rd, rest, next).Overrun?
    decreases |rest|
  {
    if next != "" {
      DecodeStaysInside(cfg, rest[0], next, rest[1..]);
    } else if rest != [] && rest[0] != "--" {
      if !IsNonOption(rest[0]) {
        DecodeStaysInside(cfg, rest[0], Lead(rd.longs, rest[0]), rest[1..]);
      } else if o == Permute {
        NextStaysInside(o, cfg, rd, rest[1..], "");
      }
    }
  }

  // Two options with the abbreviation fo
  const FOO_AND_FOB: seq<LongOption> :=
    [LongOption("foo", NoArgument, false, 1), LongOption("fob", NoArgument, false, 2)]

  lemma FoIsAmbiguous()
    ensures UpToEq("fo") == "fo" && LongMatch(FOO_AND_FOB, "fo") == Ambiguous
  {
    assert UpToEq("fo") == "fo" by {
      assert "fo"[1..] == "o" && "o"[1..] == "";
    }
    var opts := FOO_AND_FOB;
    assert "fo" <= opts[0].name && "fo" <= opts[1].name && opts[0].name != "fo" && opts[1].name != "fo";
    LongMatchIsRight(opts, "fo", Ambiguous);
  }

  // With it, one can: -W fo
  lemma AmbiguousWOverruns()
    ensures Scan(Permute, ReaderOf(Config("W;", Some(FOO_AND_FOB), false)), ["-W", "fo"], "") == None
  {
    var cfg := Config("W;", Some(FOO_AND_FOB), false);
    var args := ["-W", "fo"];
    FoIsAmbiguous();
    ShortOverruns(cfg, "W", args[1..]);
    assert Lead(true, args[0]) == "W";
    assert ReaderOf(cfg).decode("-W", "W", args[1..]) == Decode(cfg, "-W", "W", args[1..]);
    assert Next(Permute, ReaderOf(cfg), args, "").Overrun?;
  }
}
