// The names of catalogue files and the domains they belong to (intl/dcigettext.c).
module DomainFiles {
  // Catalogue files are told by their names
  type FileId = string

  // category_to_name, with the categories numbered as in the GNU C library
  function CategoryName(category: int): (r: string)
    ensures r != "" && '/' !in r
  {
    match category
    case 0 => "LC_CTYPE"
    case 1 => "LC_NUMERIC"
    case 2 => "LC_TIME"
    case 3 => "LC_COLLATE"
    case 4 => "LC_MONETARY"
    case 5 => "LC_MESSAGES"
    case 6 => "LC_ALL"
    case _ => "LC_XXX"
  }

  lemma CategoriesDiffer(category: int, other: int)
    requires 0 <= category < other <= 7
    ensures CategoryName(category) != CategoryName(other)
    ensures other == 7 ==> CategoryName(other) == CategoryName(-category - 1) == CategoryName(other + category)
  {
  }

  predicate EndsWith(s: string, end: string) {
    |end| <= |s| && s[|s| - |end|..] == end
  }

  // The end of the name of a file is made from the category and the domain
  function FileEnd(category: int, domain: string): string {
    "/" + CategoryName(category) + "/" + domain + ".mo"
  }

  predicate NamedFor(f: FileId, category: int, domain: string) {
    EndsWith(f, FileEnd(category, domain))
  }

  ghost predicate Serves(f: FileId, domain: string) {
    exists category :: NamedFor(f, category, domain)
  }

  // Two domains can have a file in common
  ghost predicate Shares(d: string, d': string) {
    exists f :: Serves(f, d) && Serves(f, d')
  }

  // The first name is the second one below some directory named after a category
  ghost predicate Covers(d: string, d': string) {
    exists category :: EndsWith("/" + d, "/" + CategoryName(category) + "/" + d')
  }

  // No two names have a file in common.  The empty name never has a binding, so its
  // files do not count.
  ghost predicate Apart(names: set<string>) {
    forall d, d' :: d in names && d' in names && d != "" && d' != "" && Shares(d, d') ==> d == d'
  }

  lemma EndsWithShorter(s: string, x: string, y: string)
    requires EndsWith(s, x) && EndsWith(s, y) && |y| <= |x|
    ensures EndsWith(x, y)
  {
  }

  lemma EndsWithout(x: string, y: string, tail: string)
    requires EndsWith(x + tail, y + tail)
    ensures EndsWith(x, y)
  {
    var n := |x| - |y|;
    forall k | 0 <= k < |y|
      ensures x[n + k] == y[k]
    {
      assert x[n + k] == (x + tail)[n + k] == (y + tail)[k];
    }
    assert x[n..] == y;
  }

  lemma EndsWithBoth(x: string, y: string, tail: string)
    requires EndsWith(x, y)
    ensures EndsWith(x + tail, y + tail)
  {
    var n := |x| - |y|;
    assert x + tail == x[..n] + (y + tail);
  }

  lemma EndsWithLonger(s: string, x: string, y: string)
    requires EndsWith(s, x) && EndsWith(x, y)
    ensures EndsWith(s, y)
  {
    forall k | 0 <= k < |y|
      ensures s[|s| - |y| + k] == y[k]
    {
      assert y[k] == x[|x| - |y| + k];
    }
  }

  lemma NoSlashBefore(name: string, d: string, x: string)
    requires '/' !in name && |d| + 1 < |x| <= |name| + |d| + 1
    requires EndsWith("/" + name + "/" + d, x)
    ensures x[0] != '/'
  {
    var y := "/" + name + "/" + d;
    assert x[0] == y[|y| - |x|] == name[|y| - |x| - 1];
  }

  // Of two names of one file, a longer one has room for the category of the other:
  // there is no slash inside a category
  lemma RoomForCategory(f: FileId, category: int, d: string, category': int, d': string)
    requires NamedFor(f, category, d) && NamedFor(f, category', d') && |d'| < |d|
    ensures EndsWith("/" + d, "/" + CategoryName(category') + "/" + d')
  {
    var name := CategoryName(category');
    var x, y := "/" + d, "/" + name + "/" + d';
    var end, end' := FileEnd(category, d), FileEnd(category', d');
    assert end' == y + ".mo";
    assert end == "/" + CategoryName(category) + (x + ".mo");
    EndsWithLonger(f, end, x + ".mo");
    if |y| <= |x| {
      EndsWithShorter(f, x + ".mo", y + ".mo");
      EndsWithout(x, y, ".mo");
    } else {
      EndsWithShorter(f, y + ".mo", x + ".mo");
      EndsWithout(y, x, ".mo");
      NoSlashBefore(name, d', x);
      assert false;
    }
  }

  lemma EndsWithSelf(front: string, end: string)
    ensures EndsWith(front + end, end)
  {
  }

  lemma CoverShares(d: string, d': string)
    requires Covers(d, d')
    ensures Shares(d, d')
  {
    hide EndsWith;
    var category :| EndsWith("/" + d, "/" + CategoryName(category) + "/" + d');
    var f := FileEnd(0, d);
    var x, y := "/" + d, "/" + CategoryName(category) + "/" + d';
    assert f == "/LC_CTYPE" + (x + ".mo");
    EndsWithSelf("/LC_CTYPE", x + ".mo");
    EndsWithBoth(x, y, ".mo");
    EndsWithLonger(f, x + ".mo", y + ".mo");
    assert y + ".mo" == FileEnd(category, d');
    assert NamedFor(f, category, d');
    EndsWithSelf("", f);
    assert "" + f == f;
    assert NamedFor(f, 0, d);
    assert Serves(f, d) && Serves(f, d');
  }

  // Domains share a file exactly if one is the other below a category's directory
  lemma SharesExactly(d: string, d': string)
    ensures Shares(d, d') <==> d == d' || Covers(d, d') || Covers(d', d)
  {
    if Shares(d, d') {
      var f :| Serves(f, d) && Serves(f, d');
      var category :| NamedFor(f, category, d);
      var category' :| NamedFor(f, category', d');
      if |d'| < |d| {
        RoomForCategory(f, category, d, category', d');
      } else if |d| < |d'| {
        RoomForCategory(f, category', d', category, d);
      } else {
        SameLength(f, category, d, category', d');
      }
    }
    if d == d' {
      assert NamedFor(FileEnd(0, d), 0, d);
      assert Serves(FileEnd(0, d), d);
    } else if Covers(d, d') {
      CoverShares(d, d');
    } else if Covers(d', d) {
      CoverShares(d', d);
    }
  }

  lemma SameLength(f: FileId, category: int, d: string, category': int, d': string)
    requires NamedFor(f, category, d) && NamedFor(f, category', d') && |d| == |d'|
    ensures d == d'
  {
    var end, end' := FileEnd(category, d), FileEnd(category', d');
    forall k | 0 <= k < |d|
      ensures d[k] == d'[k]
    {
      var i, i' := |end| - 3 - |d| + k, |end'| - 3 - |d| + k;
      assert d[k] == end[i] == f[|f| - |end| + i];
      assert d'[k] == end'[i'] == f[|f| - |end'| + i'];
    }
  }

  // The condition as a caller can check it
  lemma ApartExactly(names: set<string>)
    ensures Apart(names) <==> forall d, d' :: d in names && d' in names && d != "" && d' != "" ==> !Covers(d, d')
  {
    hide Covers, Shares;
    forall d, d' | d in names && d' in names && d != "" && d' != ""
      ensures Shares(d, d') <==> d == d' || Covers(d, d') || Covers(d', d)
      ensures Covers(d, d') ==> d != d'
    {
      SharesExactly(d, d');
      if Covers(d, d') {
        CoverIsLonger(d, d');
      }
    }
  }

  lemma CoverIsLonger(d: string, d': string)
    requires Covers(d, d')
    ensures |d'| < |d|
  {
  }

  // Names without a slash are apart
  lemma PlainNamesAreApart(names: set<string>)
    requires forall d :: d in names ==> '/' !in d
    ensures Apart(names)
  {
    ApartExactly(names);
    forall d, d' | d in names && d' in names && Covers(d, d')
      ensures false
    {
      CoverHasSlash(d, d');
    }
  }

  lemma CoverHasSlash(d: string, d': string)
    requires Covers(d, d')
    ensures '/' in d
  {
    var category :| EndsWith("/" + d, "/" + CategoryName(category) + "/" + d');
    var x, y := "/" + d, "/" + CategoryName(category) + "/" + d';
    var k := |CategoryName(category)| + 1;
    assert y[k] == x[|x| - |y| + k] == d[|x| - |y| + k - 1];
  }
}
