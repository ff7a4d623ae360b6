// The parser of directory listings: src/lsparser.c.
module LsParser {
  import opened Numerals
  import opened PfList

  // ---------------------------------------------------------------
  // Words and spaces

  // The text up to the next space
  function Word(s: string): (r: string)
    ensures r <= s && ' ' !in r && (r == s || s[|r|] == ' ')
  {
    if s == "" || s[0] == ' ' then "" else [s[0]] + Word(s[1..])
  }

  function DropSpaces(s: string): (r: string)
    ensures |r| <= |s| && (r == "" || r[0] != ' ')
  {
    if s != "" && s[0] == ' ' then DropSpaces(s[1..]) else s
  }

  function SkipField(s: string): string {
    DropSpaces(s[|Word(s)|..])
  }

  // The loop that skips spaces also takes the first character behind them
  function SkipPast(s: string): string {
    var t := DropSpaces(s);
    if t == "" then "" else t[1..]
  }

  method SkipOneField(line: string) returns (r: string)
    ensures r == SkipField(line)
  {
    r := line;
    while r != "" && r[0] != ' '
      invariant r[|Word(r)|..] == line[|Word(line)|..]
      decreases |r|
    {
      assert r[1..][|Word(r[1..])|..] == r[|Word(r)|..];
      r := r[1..];
    }
    assert r[|Word(r)|..] == r;
    while r != "" && r[0] == ' '
      invariant DropSpaces(r) == SkipField(line)
      decreases |r|
    {
      r := r[1..];
    }
  }

  // ---------------------------------------------------------------
  // Permissions and sizes

  function Bits(perms: string): nat {
    if perms == "" then 0
    else 2 * Bits(perms[..|perms| - 1]) + if perms[|perms| - 1] == '-' then 0 else 1
  }

  function Mode(perms: string): nat {
    Bits(perms) % 512
  }

  function Bit(m: nat, i: nat): nat {
    if i == 0 then m % 2 else Bit(m / 2, i - 1)
  }

  // Bit i is set unless there is a hyphen at that place from the end
  lemma {:induction false} PermissionBit(perms: string, i: nat)
    ensures Bit(Bits(perms), i) == if i < |perms| && perms[|perms| - 1 - i] != '-' then 1 else 0
  {
    if perms == "" {
      ZeroBits(i);
    } else if i > 0 {
      var n := |perms| - 1;
      PermissionBit(perms[..n], i - 1);
      assert Bits(perms) / 2 == Bits(perms[..n]);
    }
  }

  // The mode holds the lowest nine
  lemma ModeBit(perms: string, i: nat)
    ensures Bit(Mode(perms), i) == if i < 9 && i < |perms| && perms[|perms| - 1 - i] != '-' then 1 else 0
  {
    PermissionBit(perms, i);
    LowBits(Bits(perms), i, 9);
  }

  lemma {:induction false} LowBits(m: nat, i: nat, n: nat)
    ensures Bit(m % Pow2(n), i) == if i < n then Bit(m, i) else 0
  {
    if n == 0 {
      ZeroBits(i);
    } else {
      HalveRest(m, Pow2(n - 1));
      if i > 0 {
        LowBits(m / 2, i - 1, n - 1);
      }
    }
  }

  lemma {:induction false} ZeroBits(i: nat)
    ensures Bit(0, i) == 0
  {
    if i > 0 {
      ZeroBits(i - 1);
    }
  }

  lemma HalveRest(m: nat, p: nat)
    requires p > 0
    ensures m % (2 * p) / 2 == m / 2 % p && m % (2 * p) % 2 == m % 2
  {
    var q, r := m / 2 / p, m / 2 % p;
    assert m / 2 == q * p + r;
    assert m == q * (2 * p) + (2 * r + m % 2);
    Remainder(m, 2 * p, q, 2 * r + m % 2);
  }

  const MODE_MODULUS: nat := 0x1_0000_0000

  // Shifting in a word of 32 bits
  lemma Shifted(b: nat, bit: nat)
    requires bit < 2
    ensures 2 * (b % MODE_MODULUS) % MODE_MODULUS + bit == (2 * b + bit) % MODE_MODULUS
  {
  }

  lemma LowNine(b: nat)
    ensures b % MODE_MODULUS % 512 == b % 512
  {
  }

  method ParsePermissions(perms: string) returns (mode: nat)
    ensures mode == Mode(perms)
  {
    mode := 0;
    for i := 0 to |perms|
      invariant mode == Bits(perms[..i]) % MODE_MODULUS
    {
      assert perms[..i + 1][..i] == perms[..i];
      Shifted(Bits(perms[..i]), if perms[i] == '-' then 0 else 1);
      mode := 2 * mode % MODE_MODULUS;
      if perms[i] != '-' {
        mode := mode + 1;
      }
    }
    assert perms[..|perms|] == perms;
    LowNine(Bits(perms));
    mode := mode % 512;
  }

  const LONG_MAX: int := 0x7FFF_FFFF

  // The value of the digits at the start, behind digits of value 'before'
  function Value(digits: string, before: nat): nat {
    if digits == "" || !IsDigit(digits[0]) then before
    else Value(digits[1..], 10 * before + Digit(digits[0]))
  }

  // strtol in base 10, without leading white space
  function Strtol(s: string): int {
    var n := if s != "" && (s[0] == '-' || s[0] == '+') then Value(s[1..], 0) else Value(s, 0);
    if s != "" && s[0] == '-' then (if n > LONG_MAX + 1 then -LONG_MAX - 1 else -n)
    else if n > LONG_MAX then LONG_MAX else n
  }

  lemma {:induction false} ValueOfLast(digits: string, c: char, before: nat)
    requires IsDigit(c) && forall k :: 0 <= k < |digits| ==> IsDigit(digits[k])
    ensures Value(digits + [c], before) == 10 * Value(digits, before) + Digit(c)
  {
    if digits == "" {
      assert digits + [c] == [c] && [c][1..] == "";
    } else {
      assert (digits + [c])[1..] == digits[1..] + [c];
      ValueOfLast(digits[1..], c, 10 * before + Digit(digits[0]));
    }
  }

  lemma {:induction false} ValueOfNumeral(n: nat)
    ensures Value(Numeral(n), 0) == n
  {
    var front, c := if n < 10 then "" else Numeral(n / 10), DIGITS[n % 10];
    assert Numeral(n) == front + [c] && Digit(c) == n % 10;
    if n >= 10 {
      ValueOfNumeral(n / 10);
    }
    ValueOfLast(front, c, 0);
  }

  // A number written out is read back unless it is too large for a long
  lemma StrtolOfNumeral(n: nat)
    ensures Strtol(Numeral(n)) == if n <= LONG_MAX then n else LONG_MAX
  {
    ValueOfNumeral(n);
    assert IsDigit(Numeral(n)[0]);
  }

  // ---------------------------------------------------------------
  // A line about a file

  const NOTHING: Entry := Entry(Nothing, "", 0, 0)
  const FAILURE: Entry := Entry(Error, "", 0, 0)

  function ParseFile(curdir: string, line: string): Entry {
    var perms := Word(line);
    if perms == line then FAILURE
    else
      var afterInode := SkipField(SkipField(SkipField(SkipPast(line[|perms| + 1..]))));
      var size := Word(afterInode);
      if afterInode == "" || size == afterInode then FAILURE
      else
        var name := SkipField(SkipField(SkipField(SkipPast(afterInode[|size| + 1..]))));
        if name == "" then FAILURE
        else if perms == "" || (perms[0] != '-' && perms[0] != 'd') then NOTHING
        else if '/' in name then FAILURE
        else if perms[0] == '-' then Entry(File, curdir + name, Mode(perms), Strtol(size))
        else if name == "." || name == ".." then NOTHING
        else Entry(Directory, curdir + name, Mode(perms), 0)
  }

  // The fields of a line, and the number of spaces behind each
  datatype Listing = Listing(perms: string, inode: string, user: string, group: string, size: string, month: string,
                             day: string, time: string, name: string)

  function Spaces(n: nat): string {
    if n == 0 then "" else " " + Spaces(n - 1)
  }

  function Then(word: string, gap: nat, rest: string): string {
    word + (Spaces(gap) + rest)
  }

  function Written(l: Listing, gaps: seq<nat>): string
    requires |gaps| == 8
  {
    Then(l.perms, gaps[0], Then(l.inode, gaps[1], Then(l.user, gaps[2], Then(l.group, gaps[3],
    Then(l.size, gaps[4], Then(l.month, gaps[5], Then(l.day, gaps[6], Then(l.time, gaps[7], l.name))))))))
  }

  predicate Solid(word: string) {
    word != "" && ' ' !in word
  }

  ghost predicate Writable(l: Listing, gaps: seq<nat>) {
    && Solid(l.perms) && Solid(l.inode) && Solid(l.user) && Solid(l.group) && Solid(l.size) && Solid(l.month)
    && Solid(l.day) && Solid(l.time) && l.name != "" && l.name[0] != ' '
    && |gaps| == 8 && forall i :: 0 <= i < 8 ==> gaps[i] > 0
  }

  lemma DropOne(s: string)
    ensures DropSpaces(" " + s) == DropSpaces(s)
  {
    assert (" " + s)[1..] == s;
  }

  lemma {:induction false} DropSpacesOf(gap: nat, rest: string)
    requires rest == "" || rest[0] != ' '
    ensures DropSpaces(Spaces(gap) + rest) == rest
  {
    if gap == 0 {
      assert Spaces(gap) + rest == rest;
    } else {
      DropOne(Spaces(gap - 1) + rest);
      assert Spaces(gap) + rest == " " + (Spaces(gap - 1) + rest);
      DropSpacesOf(gap - 1, rest);
    }
  }

  lemma WordOf(word: string, gap: nat, rest: string)
    requires ' ' !in word && gap > 0
    ensures Word(Then(word, gap, rest)) == word
    ensures Then(word, gap, rest)[|word|..] == Spaces(gap) + rest
    ensures Then(word, gap, rest) != word && Then(word, gap, rest)[|word| + 1..] == Spaces(gap - 1) + rest
  {
    if word != "" {
      assert Then(word, gap, rest)[1..] == Then(word[1..], gap, rest);
      WordOf(word[1..], gap, rest);
    }
  }

  lemma SkipFieldOf(word: string, gap: nat, rest: string)
    requires ' ' !in word && gap > 0 && (rest == "" || rest[0] != ' ')
    ensures SkipField(Then(word, gap, rest)) == rest
  {
    WordOf(word, gap, rest);
    DropSpacesOf(gap, rest);
  }

  lemma SkipPastOf(gap: nat, word: string, gap': nat, rest: string)
    requires Solid(word)
    ensures SkipPast(Spaces(gap) + Then(word, gap', rest)) == Then(word[1..], gap', rest)
  {
    DropSpacesOf(gap, Then(word, gap', rest));
  }

  lemma Starts(word: string, gap: nat, rest: string)
    requires Solid(word)
    ensures Then(word, gap, rest) != "" && Then(word, gap, rest)[0] != ' '
  {
  }

  // The inode, the user and the group, or the month, the day and the time: the first
  // has lost a character
  lemma SkipThree(gap: nat, a: string, ga: nat, b: string, gb: nat, c: string, gc: nat, rest: string)
    requires Solid(a) && Solid(b) && Solid(c) && ga > 0 && gb > 0 && gc > 0 && rest != "" && rest[0] != ' '
    ensures SkipField(SkipField(SkipField(SkipPast(Spaces(gap) + Then(a, ga, Then(b, gb, Then(c, gc, rest))))))) == rest
  {
    hide SkipField, SkipPast, Then;
    SkipPastOf(gap, a, ga, Then(b, gb, Then(c, gc, rest)));
    Starts(c, gc, rest);
    Starts(b, gb, Then(c, gc, rest));
    SkipFieldOf(a[1..], ga, Then(b, gb, Then(c, gc, rest)));
    SkipFieldOf(b, gb, Then(c, gc, rest));
    SkipFieldOf(c, gc, rest);
  }

  // A line with any positive spacing is read back
  lemma ListingRoundTrip(l: Listing, gaps: seq<nat>, curdir: string)
    requires Writable(l, gaps)
    ensures ParseFile(curdir, Written(l, gaps))
            == if l.perms[0] != '-' && l.perms[0] != 'd' then NOTHING
               else if '/' in l.name then FAILURE
               else if l.perms[0] == '-' then Entry(File, curdir + l.name, Mode(l.perms), Strtol(l.size))
               else if l.name == "." || l.name == ".." then NOTHING
               else Entry(Directory, curdir + l.name, Mode(l.perms), 0)
  {
    hide SkipField, SkipPast, Then, Mode, Strtol;
    var tail := Then(l.month, gaps[5], Then(l.day, gaps[6], Then(l.time, gaps[7], l.name)));
    var fromSize := Then(l.size, gaps[4], tail);
    var fromInode := Then(l.inode, gaps[1], Then(l.user, gaps[2], Then(l.group, gaps[3], fromSize)));
    WordOf(l.perms, gaps[0], fromInode);
    Starts(l.size, gaps[4], tail);
    SkipThree(gaps[0] - 1, l.inode, gaps[1], l.user, gaps[2], l.group, gaps[3], fromSize);
    WordOf(l.size, gaps[4], tail);
    SkipThree(gaps[4] - 1, l.month, gaps[5], l.day, gaps[6], l.time, gaps[7], l.name);
  }

  // The line of a file, written from its size, gives back the size exactly if that fits
  lemma SizeRoundTrip(l: Listing, size: nat, gaps: seq<nat>, curdir: string)
    requires l.size == Numeral(size) && Writable(l, gaps) && l.perms[0] == '-' && '/' !in l.name
    ensures ParseFile(curdir, Written(l, gaps)) == Entry(File, curdir + l.name, Mode(l.perms), size) <==>
            size <= LONG_MAX
    ensures size > LONG_MAX ==>
              ParseFile(curdir, Written(l, gaps)) == Entry(File, curdir + l.name, Mode(l.perms), LONG_MAX)
  {
    hide ParseFile, Written, Strtol, Mode;
    ListingRoundTrip(l, gaps, curdir);
    StrtolOfNumeral(size);
  }

  // ---------------------------------------------------------------
  // The name of a directory

  predicate IsAlpha(c: char) {
    'A' <= c <= 'Z' || 'a' <= c <= 'z'
  }

  function DropSlashes(s: string): string {
    if s != "" && s[0] == '/' then DropSlashes(s[1..]) else s
  }

  function WithoutDrive(line: string): string {
    if |line| > 3 && IsAlpha(line[0]) && line[1] == ':' && line[2] == '/' then line[2..] else line
  }

  function WithoutPrefix(line: string, prefix: string): string {
    if prefix <= line then line[|prefix|..] else line
  }

  // From "top/dir/name:" to "dir/name/", and from "top:" to ""
  function DirectoryName(topdir: string, line: string): string {
    var below := WithoutPrefix(WithoutDrive(line), topdir);
    var dotless := if below == ".:" then ":" else below;
    var path := DropSlashes(WithoutPrefix(dotless, "./"));
    if |path| > 1 then path[..|path| - 1] + "/" else ""
  }

  // A letter, a colon and a slash are cut down to the slash, whatever the top directory,
  // unless nothing else is there
  lemma DriveIsCut(drive: char, rest: string)
    requires 'A' <= drive <= 'Z' || 'a' <= drive <= 'z'
    ensures rest != "" ==> WithoutDrive([drive] + ":/" + rest) == "/" + rest
    ensures WithoutDrive([drive] + ":/") == [drive] + ":/"
  {
    var line := [drive] + ":/" + rest;
    assert line[2..] == "/" + rest;
  }

  lemma NoDriveNoCut(c: char, rest: string)
    requires c < 'A' || 'Z' < c < 'a' || 'z' < c
    ensures WithoutDrive([c] + rest) == [c] + rest
  {
  }

  // The drive that is cut off a heading, though the top directory may begin with one
  predicate HasDrive(topdir: string) {
    |topdir| >= 2 && IsAlpha(topdir[0]) && topdir[1] == ':' && (|topdir| == 2 || topdir[2] == '/')
  }

  // A top directory with a drive and more than slashes behind it is not found again
  predicate IsLost(topdir: string) {
    HasDrive(topdir) && DropSlashes(topdir[2..]) != ""
  }

  lemma {:induction false} DropSlashesOf(a: string, b: string)
    ensures DropSlashes(a + b) == if DropSlashes(a) == "" then DropSlashes(b) else DropSlashes(a) + b
  {
    if a != "" && a[0] == '/' {
      assert (a + b)[1..] == a[1..] + b;
      DropSlashesOf(a[1..], b);
    } else if a == "" {
      assert a + b == b;
    }
  }

  // What is left of a heading: it begins with the colon or with a slash
  lemma BelowTop(topdir: string, end: string)
    requires end != "" && (end == ":" || end[0] == '/')
    requires |end| == 1 ==> end == ":"
    ensures var below := WithoutPrefix(WithoutDrive(topdir + end), topdir);
            below == if HasDrive(topdir) && |topdir + end| > 3 && (|topdir| > 2 || end[0] == '/')
                     then topdir[2..] + end else end
  {
    var line := topdir + end;
    assert line[|topdir|..] == end;
    if topdir == "" {
      assert line == end;
    } else if HasDrive(topdir) && |line| > 3 && (|topdir| > 2 || end[0] == '/') {
      assert line[2..] == topdir[2..] + end;
      assert WithoutDrive(line) == topdir[2..] + end;
      assert (topdir[2..] + end)[0] == '/';
    } else {
      assert WithoutDrive(line) == line;
    }
  }

  // A heading for a directory below the top one
  lemma HeadingRoundTrip(topdir: string, path: string)
    requires path != "" && path[0] != '/'
    ensures DirectoryName(topdir, topdir + ("/" + (path + ":"))) == path + "/" <==> !IsLost(topdir)
  {
    var end := "/" + (path + ":");
    BelowTop(topdir, end);
    var rest := path + ":";
    assert end[1..] == rest && rest[0] == path[0] && DropSlashes(end) == rest;
    assert rest[..|rest| - 1] == path;
    if HasDrive(topdir) {
      var t := DropSlashes(topdir[2..]);
      DropSlashesOf(topdir[2..], end);
      assert (topdir[2..] + end)[0] == '/';
      assert |t + end| > |rest|;
    }
  }

  // And for the top one itself
  lemma TopHeading(topdir: string)
    ensures DirectoryName(topdir, topdir + ":") == "" <==> !IsLost(topdir)
  {
    BelowTop(topdir, ":");
    assert DropSlashes(":") == ":";
    if HasDrive(topdir) && |topdir| > 2 {
      DropSlashesOf(topdir[2..], ":");
      assert (topdir[2..] + ":")[0] == '/';
    }
  }

  // A heading that does not name the top directory: "./path:", unless the top directory
  // itself begins it
  lemma RelativeHeading(topdir: string, path: string)
    requires path != "" && path[0] != '/'
    ensures var line := "./" + (path + ":");
            DirectoryName(topdir, line) == path + "/"
            <==> !(topdir <= line && (|topdir| > 2 || (topdir == "./" && ("./" <= path || path == "."))))
  {
    var rest := path + ":";
    var line := "./" + rest;
    assert line[2..] == rest && rest[..|rest| - 1] == path && rest[0] == path[0];
    assert DropSlashes(rest) == rest;
    assert WithoutDrive(line) == line;
    if topdir <= line && |topdir| > 2 {
      var below := line[|topdir|..];
      assert WithoutPrefix(line, topdir) == below && |below| < |rest|;
      var dotless := if below == ".:" then ":" else below;
      NotLonger(WithoutPrefix(dotless, "./"));
    } else if topdir == "./" {
      assert WithoutPrefix(line, topdir) == rest;
      if "./" <= path {
        assert rest[2..] == path[2..] + ":";
        NotLonger(rest[2..]);
      }
    } else if topdir == "." {
      assert line[1..] == "/" + rest && ("/" + rest)[1..] == rest;
    }
  }

  lemma {:induction false} NotLonger(s: string)
    ensures |DropSlashes(s)| <= |s|
  {
    if s != "" {
      NotLonger(s[1..]);
    }
  }

  lemma DotHeading(topdir: string)
    ensures DirectoryName(topdir, ".:") == ""
  {
    assert ".:"[1..] == ":" && ".:"[2..] == "";
  }

  // A name of its own, from the root or not
  lemma ForeignHeading(topdir: string, path: string)
    requires path != "" && path[0] != '/' && !("./" <= path) && path != "." && !(|path| > 1 && path[1] == ':')
    ensures !(topdir <= path + ":") ==> DirectoryName(topdir, path + ":") == path + "/"
    ensures !(topdir <= "/" + (path + ":")) ==> DirectoryName(topdir, "/" + (path + ":")) == path + "/"
  {
    var rest := path + ":";
    assert rest[..|rest| - 1] == path && rest[0] == path[0] && ("/" + rest)[1..] == rest;
    assert DropSlashes(rest) == rest && DropSlashes("/" + rest) == rest;
    assert |path| > 1 ==> rest[1] == path[1];
    assert WithoutDrive(rest) == rest;
  }

  // ---------------------------------------------------------------
  // Lines

  predicate IsEdge(c: char) {
    c == '\r' || c == '\n' || c == '\t' || c == ' '
  }

  // ne_shave
  function ShaveLeft(s: string): string {
    if s != "" && IsEdge(s[0]) then ShaveLeft(s[1..]) else s
  }

  function ShaveRight(s: string): string {
    if s != "" && IsEdge(s[|s| - 1]) then ShaveRight(s[..|s| - 1]) else s
  }

  function Shave(s: string): (r: string)
    ensures r != "" ==> !IsEdge(r[|r| - 1])
  {
    EndIsSolid(ShaveLeft(s));
    ShaveRight(ShaveLeft(s))
  }

  lemma {:induction false} EndIsSolid(s: string)
    ensures ShaveRight(s) != "" ==> !IsEdge(ShaveRight(s)[|ShaveRight(s)| - 1])
  {
    if s != "" && IsEdge(s[|s| - 1]) {
      EndIsSolid(s[..|s| - 1]);
    }
  }

  // White space around a line is taken off
  lemma ShaveOf(front: string, line: string, back: string)
    requires (forall c :: c in front ==> c in "\r\n\t ") && (forall c :: c in back ==> c in "\r\n\t ")
    requires line != "" && line[0] !in "\r\n\t " && line[|line| - 1] !in "\r\n\t "
    ensures Shave(front + (line + back)) == line
  {
    ShaveLeftOf(front, line + back);
    ShaveRightOf(line, back);
  }

  lemma {:induction false} ShaveLeftOf(front: string, s: string)
    requires (forall c :: c in front ==> IsEdge(c)) && s != "" && !IsEdge(s[0])
    ensures ShaveLeft(front + s) == s
  {
    if front == "" {
      assert front + s == s;
    } else {
      assert (front + s)[1..] == front[1..] + s;
      ShaveLeftOf(front[1..], s);
    }
  }

  lemma {:induction false} ShaveRightOf(s: string, back: string)
    requires (forall c :: c in back ==> IsEdge(c)) && s != "" && !IsEdge(s[|s| - 1])
    ensures ShaveRight(s + back) == s
  {
    if back == "" {
      assert s + back == s;
    } else {
      assert (s + back)[..|s + back| - 1] == s + back[..|back| - 1];
      ShaveRightOf(s, back[..|back| - 1]);
    }
  }

  predicate IsHeading(line: string) {
    line != "" && line[|line| - 1] == ':' && ' ' !in line
  }

  // The text ends with something other than a space
  predicate EndsSolid(s: string) {
    s != "" && s[|s| - 1] != ' '
  }

  lemma {:induction false} SpacesEnd(s: string)
    requires EndsSolid(s)
    ensures EndsSolid(DropSpaces(s))
  {
    if s[0] == ' ' {
      assert s[1..] != "" && s[1..][|s| - 2] == s[|s| - 1];
      SpacesEnd(s[1..]);
    }
  }

  class Context {
    var afterBlank: bool
    const topdir: string
    var curdir: string

    // ls_init
    constructor (dir: string)
      requires dir != ""
      ensures curdir == "" && topdir == if dir[|dir| - 1] == '/' then dir[..|dir| - 1] else dir
    {
      afterBlank := false;
      curdir := "";
      topdir := if dir[|dir| - 1] == '/' then dir[..|dir| - 1] else dir;
    }

    // The fields that are passed over: three, of which the first has been begun
    method SkipThreeFields(line: string) returns (r: string)
      requires EndsSolid(line)
      ensures r == SkipField(SkipField(SkipField(SkipPast(line))))
    {
      SpacesEnd(line);
      r := line;
      while r[0] == ' '
        invariant r != "" && EndsSolid(r) && DropSpaces(r) == DropSpaces(line)
        decreases |r|
      {
        assert r[1..] != "" && r[1..][|r| - 2] == r[|r| - 1];
        r := r[1..];
      }
      r := r[1..];
      r := SkipOneField(r);
      r := SkipOneField(r);
      r := SkipOneField(r);
    }

    // parse_file
    method ReadFile(line: string) returns (r: Entry)
      requires EndsSolid(line)
      ensures r == ParseFile(curdir, line)
    {
      hide SkipPast, SkipField, Mode, Strtol;
      var perms := Word(line);
      if perms == line {
        return FAILURE;
      }
      var rest := line[|perms| + 1..];
      assert rest != "" && rest[|rest| - 1] == line[|line| - 1];
      rest := SkipThreeFields(rest);
      if rest == "" {
        return FAILURE;
      }
      var size := Word(rest);
      if size == rest {
        return FAILURE;
      }
      FieldsEnd(line[|perms| + 1..]);
      assert rest[|size| + 1..] != "" && rest[|size| + 1..][|rest| - |size| - 2] == rest[|rest| - 1];
      rest := SkipThreeFields(rest[|size| + 1..]);
      if rest == "" {
        return FAILURE;
      }
      if perms == "" || (perms[0] != '-' && perms[0] != 'd') {
        return NOTHING;
      }
      if '/' in rest {
        return FAILURE;
      }
      if perms[0] == '-' {
        var mode := ParsePermissions(perms);
        return Entry(File, curdir + rest, mode, Strtol(size));
      }
      if rest == "." || rest == ".." {
        return NOTHING;
      }
      var mode := ParsePermissions(perms);
      return Entry(Directory, curdir + rest, mode, 0);
    }

    // parse_directory
    method ReadHeading(heading: string)
      modifies this`curdir
      ensures curdir == DirectoryName(topdir, heading)
    {
      var line := heading;
      if |line| > 3 && IsAlpha(line[0]) && line[1] == ':' && line[2] == '/' {
        line := line[2..];
      }
      if topdir <= line {
        line := line[|topdir|..];
      }
      if line == ".:" {
        line := line[1..];
      }
      if "./" <= line {
        line := line[2..];
      }
      ghost var path := DropSlashes(line);
      while line != "" && line[0] == '/'
        invariant DropSlashes(line) == path
        decreases |line|
      {
        line := line[1..];
      }
      curdir := if |line| > 1 then line[..|line| - 1] + "/" else "";
    }

    // ls_parse.  A blank line is forgotten before the next heading is looked at, so a
    // heading with a space in it is read as a file.
    method ReadLine(text: string) returns (r: Entry)
      modifies this
      ensures var line := Shave(text);
              if line != "" && !("total " <= line) && IsHeading(line) then
                r == NOTHING && curdir == DirectoryName(topdir, line)
              else
                && curdir == old(curdir)
                && r == if line == "" || "total " <= line then NOTHING else ParseFile(curdir, line)
    {
      var line := Shave(text);
      if line == "" {
        afterBlank := true;
        return NOTHING;
      }
      afterBlank := false;
      if "total " <= line {
        return NOTHING;
      }
      if line[|line| - 1] == ':' && (afterBlank || ' ' !in line) {
        ReadHeading(line);
        return NOTHING;
      }
      r := ReadFile(line);
    }
  }

  // A heading with a space, right behind a blank line: it is read as a file line, which
  // it is not
  method SpacedHeading(dir: string) returns (context: Context, blank: Entry, heading: Entry)
    requires dir != ""
    ensures blank == NOTHING && heading == FAILURE && context.curdir == ""
  {
    context := new Context(dir);
    blank := context.ReadLine("");
    heading := context.ReadLine("a b:");
    SpacedIsNoFile();
  }

  lemma SpacedIsNoFile()
    ensures Shave("a b:") == "a b:" && !IsHeading("a b:") && ParseFile("", "a b:") == FAILURE && Shave("") == ""
  {
    assert "a b:"[1] == ' ' && "a b:"[1..][0] == ' ';
    assert Word("a b:") == "a" && "a b:"[2..] == "b:" && "b:"[1..] == ":" && ":"[1..] == "";
    assert DropSpaces("b:") == "b:" && SkipPast("b:") == ":" && Word(":") == ":" && SkipField(":") == "";
  }

  lemma {:induction false} WordEnd(s: string)
    requires s == "" || EndsSolid(s)
    ensures s[|Word(s)|..] == "" || EndsSolid(s[|Word(s)|..])
  {
  }

  lemma FieldEnd(s: string)
    requires s == "" || EndsSolid(s)
    ensures SkipField(s) == "" || EndsSolid(SkipField(s))
  {
    WordEnd(s);
    var t := s[|Word(s)|..];
    if t != "" {
      SpacesEnd(t);
    }
  }

  lemma FieldsEnd(s: string)
    requires EndsSolid(s)
    ensures var r := SkipField(SkipField(SkipField(SkipPast(s)))); r == "" || EndsSolid(r)
  {
    hide SkipField;
    SpacesEnd(s);
    var t := SkipPast(s);
    assert t == "" || t[|t| - 1] == DropSpaces(s)[|DropSpaces(s)| - 1];
    FieldEnd(t);
    FieldEnd(SkipField(t));
    FieldEnd(SkipField(SkipField(t)));
  }

  // A written line is taken for what it is, with any white space around it
  lemma ListingIsNoHeading(l: Listing, gaps: seq<nat>)
    requires Writable(l, gaps) && (l.perms[0] == '-' || l.perms[0] == 'd') && !IsEdge(l.name[|l.name| - 1])
    ensures var line := Written(l, gaps);
            line != "" && Shave(line) == line && !("total " <= line) && !IsHeading(line)
  {
    hide Solid;
    var line := Written(l, gaps);
    var rest := Then(l.inode, gaps[1], Then(l.user, gaps[2], Then(l.group, gaps[3],
      Then(l.size, gaps[4], Then(l.month, gaps[5], Then(l.day, gaps[6], Then(l.time, gaps[7], l.name)))))));
    assert line == Then(l.perms, gaps[0], rest);
    WrittenEnds(l, gaps);
    assert l.perms != "" by {
      NotEmpty(l.perms);
    }
    assert line[0] == l.perms[0];
    assert Spaces(gaps[0])[0] == ' ' && line[|l.perms|] == ' ';
  }

  lemma NotEmpty(word: string)
    requires Solid(word)
    ensures word != ""
  {
  }

  lemma ThenEnds(word: string, gap: nat, rest: string)
    requires rest != ""
    ensures Then(word, gap, rest) != "" && Then(word, gap, rest)[|Then(word, gap, rest)| - 1] == rest[|rest| - 1]
  {
  }

  lemma WrittenEnds(l: Listing, gaps: seq<nat>)
    requires |gaps| == 8 && l.name != ""
    ensures var line := Written(l, gaps); line != "" && line[|line| - 1] == l.name[|l.name| - 1]
  {
    hide Then;
    var t7 := Then(l.time, gaps[7], l.name);
    var t6 := Then(l.day, gaps[6], t7);
    var t5 := Then(l.month, gaps[5], t6);
    var t4 := Then(l.size, gaps[4], t5);
    var t3 := Then(l.group, gaps[3], t4);
    var t2 := Then(l.user, gaps[2], t3);
    var t1 := Then(l.inode, gaps[1], t2);
    ThenEnds(l.time, gaps[7], l.name);
    ThenEnds(l.day, gaps[6], t7);
    ThenEnds(l.month, gaps[5], t6);
    ThenEnds(l.size, gaps[4], t5);
    ThenEnds(l.group, gaps[3], t4);
    ThenEnds(l.user, gaps[2], t3);
    ThenEnds(l.inode, gaps[1], t2);
    ThenEnds(l.perms, gaps[0], t1);
  }

  // A name without spaces and a colon is a heading
  lemma PlainHeading(path: string)
    requires ' ' !in path
    ensures IsHeading(path + ":") && !("total " <= path + ":")
    ensures !IsHeading(path) || path[|path| - 1] == ':'
  {
    var line := path + ":";
    assert |line| > 5 ==> line[5] != "total "[5];
  }

  // A number with a sign
  lemma StrtolOfSigned(n: nat)
    ensures Strtol("+" + Numeral(n)) == if n <= LONG_MAX then n else LONG_MAX
    ensures Strtol("-" + Numeral(n)) == if n <= LONG_MAX + 1 then 0 - n else -LONG_MAX - 1
  {
    ValueOfNumeral(n);
    assert ("+" + Numeral(n))[1..] == ("-" + Numeral(n))[1..] == Numeral(n);
  }
}
