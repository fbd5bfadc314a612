/** Migration file names, and the ordered list a directory holds. */
module MigrationDiscovery {
  import opened Basics
  import opened StringOrder

  predicate IsDigit(c: char) {
    '0' <= c <= '9'
  }

  predicate IsWordChar(c: char) {
    IsDigit(c) || 'a' <= c <= 'z'
  }

  /** [a-z0-9]+(?:_[a-z0-9]+)* */
  predicate AreWords(s: string) {
    && s != "" && s[0] != '_' && s[|s| - 1] != '_'
    && (forall i :: 0 <= i < |s| ==> IsWordChar(s[i]) || s[i] == '_')
    && (forall i :: 0 < i < |s| ==> !(s[i - 1] == '_' && s[i] == '_'))
  }

  /** ^[0-9]{3}_[a-z0-9]+(?:_[a-z0-9]+)*\.sql$ */
  predicate IsCanonicalName(name: string) {
    && |name| > 8
    && IsDigit(name[0]) && IsDigit(name[1]) && IsDigit(name[2]) && name[3] == '_'
    && AreWords(name[4..|name| - 4])
    && name[|name| - 4..] == ".sql"
  }

  function Digit(c: char): (d: nat)
    requires IsDigit(c)
    ensures d < 10
  {
    (c - '0') as nat
  }

  /** strconv.Atoi of the first three characters. */
  function Number(name: string): (n: nat)
    requires IsCanonicalName(name)
    ensures n < 1000
  {
    100 * Digit(name[0]) + 10 * Digit(name[1]) + Digit(name[2])
  }

  // ----- the names, written out -----

  predicate IsWord(w: string) {
    w != "" && forall i :: 0 <= i < |w| ==> '0' <= w[i] <= '9' || 'a' <= w[i] <= 'z'
  }

  ghost predicate IsWordList(words: seq<string>) {
    words != [] && forall w :: w in words ==> IsWord(w)
  }

  function Joined(words: seq<string>): (s: string)
    requires words != []
  {
    if |words| == 1 then words[0] else words[0] + "_" + Joined(words[1..])
  }

  function DigitOf(d: nat): (c: char)
    requires d < 10
  {
    ['0', '1', '2', '3', '4', '5', '6', '7', '8', '9'][d]
  }

  /** Three digits, the words behind underscores, and the extension. */
  function WrittenName(a: nat, b: nat, c: nat, words: seq<string>): (name: string)
    requires a < 10 && b < 10 && c < 10 && words != []
  {
    [DigitOf(a), DigitOf(b), DigitOf(c)] + "_" + Joined(words) + ".sql"
  }

  lemma {:induction false} JoinedAreWords(words: seq<string>)
    requires IsWordList(words)
    ensures AreWords(Joined(words))
  {
    assert words[0] in words;
    if |words| > 1 {
      var rest := Joined(words[1..]);
      JoinedAreWords(words[1..]);
      var s := words[0] + "_" + rest;
      var n := |words[0]|;
      assert forall i :: n < i < |s| ==> s[i] == rest[i - n - 1];
    }
  }

  /** The end of the first word. */
  lemma {:induction false} FirstWordEnd(s: string) returns (n: nat)
    ensures n <= |s| && (forall i :: 0 <= i < n ==> s[i] != '_') && (n < |s| ==> s[n] == '_')
  {
    if s == "" || s[0] == '_' {
      n := 0;
    } else {
      var rest := FirstWordEnd(s[1..]);
      n := rest + 1;
      assert forall i :: 0 < i < n ==> s[i] == s[1..][i - 1];
    }
  }

  lemma RestAreWords(s: string, n: nat)
    requires AreWords(s) && n < |s| && s[n] == '_'
    ensures AreWords(s[n + 1..])
  {
    var rest := s[n + 1..];
    assert n < |s| - 1 && s[n + 1] != '_';
    assert forall i :: 0 <= i < |rest| ==> rest[i] == s[n + 1 + i];
  }

  lemma {:induction false} WordsAreJoined(s: string) returns (words: seq<string>)
    requires AreWords(s)
    ensures IsWordList(words) && Joined(words) == s
    decreases |s|
  {
    var n := FirstWordEnd(s);
    assert n > 0;
    var first := s[..n];
    assert IsWord(first);
    if n == |s| {
      words := [s];
    } else {
      RestAreWords(s, n);
      hide AreWords, IsWord;
      var later := WordsAreJoined(s[n + 1..]);
      words := [first] + later;
      assert words[1..] == later;
      assert s == first + "_" + s[n + 1..];
    }
  }

  lemma NameParts(digits: string, middle: string)
    requires |digits| == 3
    ensures var name := digits + "_" + middle + ".sql";
      && name[..3] == digits && name[3] == '_' && |name| == 8 + |middle|
      && name[4..|name| - 4] == middle && name[|name| - 4..] == ".sql"
  {
  }

  lemma DigitReadBack(d: nat)
    requires d < 10
    ensures IsDigit(DigitOf(d)) && Digit(DigitOf(d)) == d
  {
  }

  /** A written name is canonical, and has the number of its digits. */
  lemma WrittenNameIsCanonical(a: nat, b: nat, c: nat, words: seq<string>)
    requires a < 10 && b < 10 && c < 10 && IsWordList(words)
    ensures var name := WrittenName(a, b, c, words);
      IsCanonicalName(name) && Number(name) == 100 * a + 10 * b + c
  {
    JoinedAreWords(words);
    DigitReadBack(a);
    DigitReadBack(b);
    DigitReadBack(c);
    assert Joined(words) != "";
    hide AreWords, IsWordList, Joined, DigitOf, IsDigit, Digit;
    var digits := [DigitOf(a), DigitOf(b), DigitOf(c)];
    NameParts(digits, Joined(words));
    var name := WrittenName(a, b, c, words);
    assert name[0] == name[..3][0] && name[1] == name[..3][1] && name[2] == name[..3][2];
  }

  /** Every canonical name is a written one. */
  lemma CanonicalNameIsWritten(name: string) returns (a: nat, b: nat, c: nat, words: seq<string>)
    requires IsCanonicalName(name)
    ensures a < 10 && b < 10 && c < 10 && IsWordList(words) && name == WrittenName(a, b, c, words)
  {
    words := WordsAreJoined(name[4..|name| - 4]);
    a, b, c := (name[0] - '0') as nat, (name[1] - '0') as nat, (name[2] - '0') as nat;
    assert name == [name[0], name[1], name[2]] + "_" + name[4..|name| - 4] + name[|name| - 4..];
  }

  /** Lexical order is number order, whenever the numbers differ. */
  lemma LexicalIsNumeric(a: string, b: string)
    requires IsCanonicalName(a) && IsCanonicalName(b) && Number(a) != Number(b)
    ensures Less(a, b) <==> Number(a) < Number(b)
  {
    hide AreWords;
    var x, y := a[1..], b[1..];
    var v, w := x[1..], y[1..];
    assert a[0] == b[0] ==> Less(a, b) == Less(x, y);
    assert a[1] == b[1] ==> Less(x, y) == Less(v, w);
    assert a[2] != b[2] ==> Less(v, w) == (a[2] < b[2]);
  }

  datatype File = File(name: string, number: nat)

  /** A directory entry and whether it is a regular file. */
  datatype Entry = Entry(name: string, regular: bool)

  datatype DiscoverError = Unreadable | NotRegular | DuplicateNumber

  datatype Discovered = Files(files: seq<File>) | DiscoverFailed(error: DiscoverError)

  function Names(files: seq<File>): (r: seq<string>)
    ensures |r| == |files| && forall i :: 0 <= i < |r| ==> r[i] == files[i].name
  {
    seq(|files|, i requires 0 <= i < |files| => files[i].name)
  }

  predicate NotAfter(a: File, b: File) {
    AtMost(a.name, b.name)
  }

  ghost predicate IsFile(f: File) {
    IsCanonicalName(f.name) && f.number == Number(f.name)
  }

  /** What every discovered list is: canonical names with their numbers, in an order that
      is at once the lexical and the numeric one. */
  ghost predicate IsMigrationList(files: seq<File>) {
    && (forall f :: f in files ==> IsFile(f))
    && (forall i, j :: 0 <= i < j < |files| ==> files[i].number < files[j].number)
    && Increasing(Names(files))
  }

  ghost predicate Acceptable(entries: seq<Entry>) {
    && (forall e :: e in entries && IsCanonicalName(e.name) ==> e.regular)
    && (forall i, j ::
          0 <= i < j < |entries| && IsCanonicalName(entries[i].name) && IsCanonicalName(entries[j].name) ==>
          Number(entries[i].name) != Number(entries[j].name))
  }

  function NameSet(files: seq<File>): (r: set<string>) {
    set f | f in files :: f.name
  }

  function CanonicalNames(entries: seq<Entry>): (r: set<string>) {
    set e | e in entries && IsCanonicalName(e.name) :: e.name
  }

  /** The list holds exactly the canonical entries. */
  ghost predicate Lists(files: seq<File>, entries: seq<Entry>) {
    NameSet(files) == CanonicalNames(entries)
  }

  ghost predicate DistinctNumbers(files: seq<File>) {
    forall i, j :: 0 <= i < j < |files| ==> files[i].number != files[j].number
  }

  /** The entry loop of Discover; `numbers` maps each number seen to its file. */
  method Collect(entries: seq<Entry>) returns (files: seq<File>, error: Option<DiscoverError>)
    ensures error == None <==> Acceptable(entries)
    ensures error == None ==>
      && DistinctNumbers(files) && (forall f :: f in files ==> IsFile(f)) && Lists(files, entries)
  {
    hide AreWords, Number, IsCanonicalName;
    files, error := [], None;
    var numbers: map<nat, string> := map[];
    for i := 0 to |entries|
      invariant Acceptable(entries[..i]) && DistinctNumbers(files) && Lists(files, entries[..i])
      invariant forall f :: f in files ==> IsFile(f) && f.number in numbers
      invariant forall n :: n in numbers ==> exists f :: f in files && f.number == n
    {
      var entry := entries[i];
      assert entries[..i + 1] == entries[..i] + [entry];
      if !IsCanonicalName(entry.name) {
        SkippedEntry(files, entries, i);
        continue;
      }
      if !entry.regular {
        return files, Some(NotRegular);
      }
      var number := Number(entry.name);
      if number in numbers {
        ClashingEntry(files, entries, i, number);
        return files, Some(DuplicateNumber);
      }
      AddedEntry(files, entries, i);
      numbers := numbers[number := entry.name];
      files := files + [File(entry.name, number)];
    }
    assert entries[..|entries|] == entries;
  }

  lemma SkippedEntry(files: seq<File>, entries: seq<Entry>, i: nat)
    requires i < |entries| && !IsCanonicalName(entries[i].name)
    requires Acceptable(entries[..i]) && Lists(files, entries[..i])
    ensures Acceptable(entries[..i + 1]) && Lists(files, entries[..i + 1])
  {
    hide IsCanonicalName, Number;
    assert entries[..i + 1] == entries[..i] + [entries[i]];
    assert forall e :: e in entries[..i + 1] <==> e in entries[..i] || e == entries[i];
    assert CanonicalNames(entries[..i + 1]) == CanonicalNames(entries[..i]);
  }

  lemma ClashingEntry(files: seq<File>, entries: seq<Entry>, i: nat, number: nat)
    requires i < |entries| && IsCanonicalName(entries[i].name) && number == Number(entries[i].name)
    requires Lists(files, entries[..i]) && (forall f :: f in files ==> IsFile(f))
    requires exists f :: f in files && f.number == number
    ensures !Acceptable(entries)
  {
    hide IsCanonicalName, Number;
    var f :| f in files && f.number == number;
    assert f.name in NameSet(files);
    var e :| e in entries[..i] && e.name == f.name;
    var k :| 0 <= k < i && entries[k] == e;
    assert Number(entries[k].name) == Number(entries[i].name);
  }

  lemma AddedEntry(files: seq<File>, entries: seq<Entry>, i: nat)
    requires i < |entries| && IsCanonicalName(entries[i].name) && entries[i].regular
    requires Acceptable(entries[..i]) && Lists(files, entries[..i]) && DistinctNumbers(files)
    requires forall f :: f in files ==> IsFile(f) && f.number != Number(entries[i].name)
    ensures Acceptable(entries[..i + 1])
    ensures Lists(files + [File(entries[i].name, Number(entries[i].name))], entries[..i + 1])
    ensures DistinctNumbers(files + [File(entries[i].name, Number(entries[i].name))])
  {
    hide IsCanonicalName, Number;
    var added := files + [File(entries[i].name, Number(entries[i].name))];
    assert forall e :: e in entries[..i + 1] <==> e in entries[..i] || e == entries[i];
    assert forall f :: f in added <==> f in files || f == File(entries[i].name, Number(entries[i].name));
    forall k | 0 <= k < i && IsCanonicalName(entries[k].name)
      ensures Number(entries[k].name) != Number(entries[i].name)
    {
      assert entries[k] in entries[..i] && entries[k].name in CanonicalNames(entries[..i]);
      var f :| f in files && f.name == entries[k].name;
    }
    assert NameSet(added) == NameSet(files) + {entries[i].name};
    assert CanonicalNames(entries[..i + 1]) == CanonicalNames(entries[..i]) + {entries[i].name};
  }

  lemma SortedIsMigrationList(files: seq<File>)
    requires DistinctNumbers(files) && forall f :: f in files ==> IsFile(f)
    ensures IsMigrationList(Sort(files, NotAfter))
    ensures forall f :: f in Sort(files, NotAfter) <==> f in files
  {
    hide IsMigrationList, IsFile, NotAfter;
    var sorted := Sort(files, NotAfter);
    NamesAreTotal(files);
    SortSorts(files, NotAfter);
    SameElements(sorted, files);
    PermutationKeepsNumbers(files, sorted);
    SortedIsIncreasing(sorted);
  }

  lemma SortedIsIncreasing(sorted: seq<File>)
    requires SortedBy(sorted, NotAfter) && DistinctNumbers(sorted) && forall f :: f in sorted ==> IsFile(f)
    ensures IsMigrationList(sorted)
  {
    hide IsCanonicalName, Number, Less, AtMost, IsFile, NotAfter;
    forall i, j | 0 <= i < j < |sorted|
      ensures sorted[i].number < sorted[j].number && Less(sorted[i].name, sorted[j].name)
    {
      InOrder(sorted[i], sorted[j]);
    }
  }

  lemma InOrder(a: File, b: File)
    requires IsFile(a) && IsFile(b) && NotAfter(a, b) && a.number != b.number
    ensures a.number < b.number && Less(a.name, b.name)
  {
    LexicalIsNumeric(a.name, b.name);
    AtMostMeansLess(a.name, b.name);
  }

  lemma AtMostMeansLess(a: string, b: string)
    requires AtMost(a, b) && a != b
    ensures Less(a, b)
  {
    LessIsTotal(a, b);
  }

  lemma NamesAreTotal(files: seq<File>)
    ensures TotalOn(files, NotAfter)
  {
    hide Less;
    forall x, y | x in files && y in files
      ensures NotAfter(x, y) || NotAfter(y, x)
    {
      if Less(x.name, y.name) {
        LessIsAsymmetric(x.name, y.name);
      }
    }
    forall x, y, z | x in files && y in files && z in files && NotAfter(x, y) && NotAfter(y, z)
      ensures NotAfter(x, z)
    {
      LessThrough(x.name, y.name, z.name);
    }
  }

  lemma PermutationKeepsNumbers(a: seq<File>, b: seq<File>)
    requires DistinctNumbers(a) && multiset(a) == multiset(b)
    ensures DistinctNumbers(b)
  {
    NumbersByCounting(a);
    NumbersByCounting(b);
    SameElements(a, b);
    assert NumberSet(a) == NumberSet(b);
    assert |multiset(a)| == |a| && |multiset(b)| == |b|;
  }

  function NumberSet(files: seq<File>): (r: set<nat>) {
    set f | f in files :: f.number
  }

  lemma {:induction false} NumbersByCounting(files: seq<File>)
    ensures |NumberSet(files)| <= |files|
    ensures DistinctNumbers(files) <==> |NumberSet(files)| == |files|
  {
    if files != [] {
      hide DistinctNumbers;
      var rest := files[1..];
      NumbersByCounting(rest);
      assert forall f :: f in files <==> f == files[0] || f in rest;
      assert NumberSet(files) == {files[0].number} + NumberSet(rest);
      NumbersUnfold(files);
    }
  }

  lemma NumbersUnfold(files: seq<File>)
    requires files != []
    ensures DistinctNumbers(files) <==> DistinctNumbers(files[1..]) && files[0].number !in NumberSet(files[1..])
  {
    assert forall j :: 0 < j < |files| ==> files[j] == files[1..][j - 1];
    assert forall f :: f in files[1..] ==> f.number in NumberSet(files[1..]);
  }

  /** Discover: succeeds exactly when the directory can be read, every canonical name is a
      regular file and no number repeats; the list is in lexical and numeric order and
      holds exactly the canonical names. */
  method Discover(listing: Option<seq<Entry>>) returns (r: Discovered)
    ensures r.Files? <==> listing.Some? && Acceptable(listing.value)
    ensures r.Files? ==> IsMigrationList(r.files) && Lists(r.files, listing.value)
  {
    if listing == None {
      return DiscoverFailed(Unreadable);
    }
    var files, error := Collect(listing.value);
    if error.Some? {
      return DiscoverFailed(error.value);
    }
    SortedIsMigrationList(files);
    return Files(Sort(files, NotAfter));
  }
}
