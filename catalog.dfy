/**
 * The migration catalog that `find_migrations` builds from a directory
 * listing: names the scheme's regex accepts, keyed by their number, a repeated
 * number rejected, sorted by number (MY_Migration.php, lines 315-341).
 */
module Catalog {
  import opened Wrappers
  import opened MigrationTypes
  import opened Naming

  /** One catalog entry: a version number and the basename of its file. */
  datatype Entry = Entry(number: nat, file: string)

  function Numbers(cat: seq<Entry>): set<nat>
  {
    set e | e in cat :: e.number
  }

  /** Strictly increasing numbers: the order `ksort` leaves the catalog in. */
  predicate Ascending(cat: seq<Entry>)
  {
    forall i, j :: 0 <= i < j < |cat| ==> cat[i].number < cat[j].number
  }

  /**
   * What the loop of `find_migrations` reads off one basename: whether the
   * scheme's regex accepts it, and the number it would be stored under.
   */
  datatype Candidate = Candidate(file: string, accepted: bool, number: nat)

  function Examine(file: string, scheme: Scheme): Candidate
  {
    Candidate(file, Matches(file, scheme), Number(file))
  }

  /** The listing, each basename examined in listing order. */
  function Examined(files: seq<string>, scheme: Scheme): (cs: seq<Candidate>)
    ensures |cs| == |files|
    ensures forall i :: 0 <= i < |files| ==> cs[i] == Examine(files[i], scheme)
  {
    if files == [] then [] else Examined(files[..|files| - 1], scheme) + [Examine(files[|files| - 1], scheme)]
  }

  /**
   * The loop of `find_migrations` over the examined listing: a name the regex
   * rejects is skipped, the first name whose number is already a key ends the
   * scan with the "multiple version" error, any other name is stored under
   * its number.
   */
  function Scan(cs: seq<Candidate>): Result<map<nat, string>, Error>
  {
    if cs == [] then Success(map[])
    else Add(Scan(cs[..|cs| - 1]), cs[|cs| - 1])
  }

  /** One turn of the scan: candidate `c` against the map built so far. */
  function Add(sofar: Result<map<nat, string>, Error>, c: Candidate): Result<map<nat, string>, Error>
  {
    match sofar
    case Failure(e) => Failure(e)
    case Success(m) =>
      if !c.accepted then Success(m)
      else if c.number in m then Failure(Duplicate(c.number))
      else Success(m[c.number := c.file])
  }

  lemma {:induction false} MinExists(keys: set<nat>)
    requires keys != {}
    ensures exists k :: k in keys && forall j :: j in keys ==> k <= j
  {
    var x :| x in keys;
    var rest := keys - {x};
    if rest == {} {
      forall j | j in keys ensures x <= j {
        assert j !in rest;
      }
      assert x in keys && forall j :: j in keys ==> x <= j;
    } else {
      MinExists(rest);
      var k :| k in rest && forall j :: j in rest ==> k <= j;
      var least := if x < k then x else k;
      forall j | j in keys ensures least <= j {
        if j != x {
          assert j in rest;
        }
      }
      assert least in keys && forall j :: j in keys ==> least <= j;
    }
  }

  /** The smallest key of a non-empty key set. */
  function MinKey(keys: set<nat>): (k: nat)
    requires keys != {}
    ensures k in keys && forall j :: j in keys ==> k <= j
  {
    MinExists(keys);
    var k :| k in keys && forall j :: j in keys ==> k <= j;
    k
  }

  /** `ksort`: the entries of the map in increasing key order. */
  function KSort(m: map<nat, string>): (r: seq<Entry>)
    ensures Ascending(r)
    ensures forall e :: e in r <==> e.number in m && m[e.number] == e.file
    decreases m.Keys
  {
    if m == map[] then []
    else
      var k := MinKey(m.Keys);
      var rest := KSort(m - {k});
      assert forall e :: e in rest ==> k < e.number;
      assert forall j :: 0 <= j < |rest| ==> rest[j] in rest;
      [Entry(k, m[k])] + rest
  }

  /** `find_migrations`: the sorted catalog of a listing, or the duplicate it stops at. */
  function FindCatalog(files: seq<string>, scheme: Scheme): Result<seq<Entry>, Error>
  {
    match Scan(Examined(files, scheme))
    case Failure(e) => Failure(e)
    case Success(m) => Success(KSort(m))
  }

  /** The `i`-th and the later `j`-th candidates are both accepted and carry the same number. */
  predicate Clash(cs: seq<Candidate>, i: int, j: int)
  {
    0 <= i < j < |cs| && cs[i].accepted && cs[j].accepted && cs[i].number == cs[j].number
  }

  /**
   * The clash of the `i`-th and `j`-th candidates is the first in listing
   * order: no clash ends before position `j`.
   */
  predicate FirstClash(cs: seq<Candidate>, i: int, j: int)
  {
    Clash(cs, i, j) && forall i2, j2 | 0 <= i2 < j2 < |cs| :: Clash(cs, i2, j2) ==> j <= j2
  }

  /** No two accepted candidates carry the same number. */
  predicate Distinct(cs: seq<Candidate>)
  {
    forall i, j | 0 <= i < j < |cs| :: !Clash(cs, i, j)
  }

  /** Scanning one more candidate is one more turn of the scan. */
  lemma ScanSnoc(cs: seq<Candidate>, c: Candidate)
    ensures Scan(cs + [c]) == Add(Scan(cs), c)
  {
    assert (cs + [c])[..|cs|] == cs;
  }

  /** A scan that has failed on a prefix fails the same way whatever follows. */
  lemma {:induction false} ScanFailureSticks(cs: seq<Candidate>, rest: seq<Candidate>)
    requires Scan(cs).Failure?
    ensures Scan(cs + rest) == Scan(cs)
    decreases |rest|
  {
    if rest != [] {
      var n := |rest| - 1;
      ScanFailureSticks(cs, rest[..n]);
      assert cs + rest == (cs + rest[..n]) + [rest[n]];
      ScanSnoc(cs + rest[..n], rest[n]);
    } else {
      assert cs + rest == cs;
    }
  }

  /**
   * A successful scan keys each accepted candidate by its number, and holds
   * nothing else.
   */
  lemma {:induction false} ScanContents(cs: seq<Candidate>)
    requires Scan(cs).Success?
    ensures var m := Scan(cs).value;
      && (forall n :: n in m ==> Candidate(m[n], true, n) in cs)
      && (forall c :: c in cs && c.accepted ==> c.number in m && m[c.number] == c.file)
  {
    if cs != [] {
      var init, last := cs[..|cs| - 1], cs[|cs| - 1];
      assert cs == init + [last];
      ScanContents(init);
      var m0, m := Scan(init).value, Scan(cs).value;
      forall n | n in m ensures Candidate(m[n], true, n) in cs {
        if !(last.accepted && n == last.number) {
          assert n in m0 && m[n] == m0[n];
        }
      }
      forall c | c in cs && c.accepted ensures c.number in m && m[c.number] == c.file {
        if c != last {
          assert c in init;
        }
      }
    }
  }

  /** A clash that ends inside a prefix is a clash of the prefix. */
  lemma ClashToPrefix(cs: seq<Candidate>, k: nat, i: int, j: int)
    requires j < k <= |cs| && Clash(cs, i, j)
    ensures Clash(cs[..k], i, j)
  {
    assert cs[i] == cs[..k][i] && cs[j] == cs[..k][j];
  }

  /** A clash inside a prefix is a clash of the whole sequence. */
  lemma ClashInPrefix(cs: seq<Candidate>, k: nat, i: int, j: int)
    requires k <= |cs| && Clash(cs[..k], i, j)
    ensures Clash(cs, i, j) && cs[j] == cs[..k][j]
  {
    assert cs[i] == cs[..k][i] && cs[j] == cs[..k][j];
  }

  /** An accepted last candidate whose number a successful scan of the rest holds clashes with an earlier one. */
  lemma ClashWithLast(cs: seq<Candidate>) returns (i: nat)
    requires cs != [] && Scan(cs[..|cs| - 1]).Success?
    requires cs[|cs| - 1].accepted && cs[|cs| - 1].number in Scan(cs[..|cs| - 1]).value
    ensures Clash(cs, i, |cs| - 1)
  {
    var n := |cs| - 1;
    var init := cs[..n];
    ScanContents(init);
    var g := Candidate(Scan(init).value[cs[n].number], true, cs[n].number);
    i :| 0 <= i < n && init[i] == g;
    assert cs[i] == g;
  }

  /**
   * A failed scan names the number of the first accepted candidate, in
   * listing order, whose number an earlier accepted one already has.
   */
  lemma {:induction false} ScanFailureWitness(cs: seq<Candidate>)
    requires Scan(cs).Failure?
    ensures exists i, j :: FirstClash(cs, i, j) && Scan(cs).error == Duplicate(cs[j].number)
  {
    var n := |cs| - 1;
    var init := cs[..n];
    if Scan(init).Failure? {
      ScanFailureWitness(init);
      var i, j :| FirstClash(init, i, j) && Scan(init).error == Duplicate(init[j].number);
      ClashInPrefix(cs, n, i, j);
      forall i2, j2 | Clash(cs, i2, j2) ensures j <= j2 {
        if j2 < n {
          ClashToPrefix(cs, n, i2, j2);
        }
      }
      assert FirstClash(cs, i, j);
    } else {
      var i := ClashWithLast(cs);
      ScanSuccessDistinct(init);
      forall i2, j2 | Clash(cs, i2, j2) ensures n <= j2 {
        if j2 < n {
          ClashToPrefix(cs, n, i2, j2);
          assert false;
        }
      }
      assert FirstClash(cs, i, n);
    }
  }

  /** An accepted candidate that a successful scan reached last has a number no earlier accepted one has. */
  lemma LastIsNew(cs: seq<Candidate>, i: nat)
    requires Scan(cs).Success? && i < |cs| - 1
    requires cs[i].accepted && cs[|cs| - 1].accepted
    ensures cs[i].number != cs[|cs| - 1].number
  {
    var init := cs[..|cs| - 1];
    ScanContents(init);
    assert cs[i] == init[i] && cs[i] in init;
  }

  /** A successful scan saw no two accepted candidates with one number. */
  lemma {:induction false} ScanSuccessDistinct(cs: seq<Candidate>)
    requires Scan(cs).Success?
    ensures Distinct(cs)
  {
    if cs != [] {
      var n := |cs| - 1;
      var init := cs[..n];
      ScanSuccessDistinct(init);
      forall i, j | 0 <= i < j < |cs| ensures !Clash(cs, i, j) {
        if j < n {
          assert cs[i] == init[i] && cs[j] == init[j];
          assert !Clash(init, i, j);
        } else if cs[i].accepted && cs[j].accepted {
          LastIsNew(cs, i);
        }
      }
    }
  }

  /** Without two accepted candidates sharing a number, the scan succeeds. */
  lemma {:induction false} DistinctScanSucceeds(cs: seq<Candidate>)
    requires Distinct(cs)
    ensures Scan(cs).Success?
  {
    if cs != [] {
      var n := |cs| - 1;
      var init := cs[..n];
      assert Distinct(init) by {
        forall i, j | 0 <= i < j < |init| ensures !Clash(init, i, j) {
          if Clash(init, i, j) {
            ClashInPrefix(cs, n, i, j);
          }
        }
      }
      DistinctScanSucceeds(init);
      if cs[n].accepted && cs[n].number in Scan(init).value {
        var i := ClashWithLast(cs);
        assert false;
      }
    }
  }

  /**
   * The scan succeeds exactly when no two accepted candidates share a number;
   * when it fails, the error names the number of the first accepted candidate
   * whose number an earlier accepted one already has.
   */
  lemma ScanSucceedsIffDistinct(cs: seq<Candidate>)
    ensures Scan(cs).Success? <==> Distinct(cs)
    ensures Scan(cs).Failure? ==> exists i, j :: FirstClash(cs, i, j) && Scan(cs).error == Duplicate(cs[j].number)
  {
    if Scan(cs).Success? {
      ScanSuccessDistinct(cs);
    } else {
      ScanFailureWitness(cs);
      if Distinct(cs) {
        DistinctScanSucceeds(cs);
      }
    }
  }

  /** A candidate the regex rejected, wherever it stands, changes nothing. */
  lemma {:induction false} ScanSkips(before: seq<Candidate>, stray: Candidate, after: seq<Candidate>)
    requires !stray.accepted
    ensures Scan(before + [stray] + after) == Scan(before + after)
    decreases |after|
  {
    var with, without := before + [stray] + after, before + after;
    if after == [] {
      assert with[..|with| - 1] == before;
      assert without == before;
    } else {
      var n := |after| - 1;
      ScanSkips(before, stray, after[..n]);
      assert with[..|with| - 1] == before + [stray] + after[..n];
      assert without[..|without| - 1] == before + after[..n];
      assert with[|with| - 1] == after[n] == without[|without| - 1];
    }
  }

  /**
   * A catalog that `find_migrations` returns is sorted by number, holds only
   * names the scheme's regex accepts, each under its own number, and holds
   * every such name of the listing.
   */
  lemma CatalogContents(files: seq<string>, scheme: Scheme, cat: seq<Entry>)
    requires FindCatalog(files, scheme) == Success(cat)
    ensures Ascending(cat)
    ensures forall e :: e in cat <==> e.file in files && Matches(e.file, scheme) && e.number == Number(e.file)
  {
    var cs := Examined(files, scheme);
    ScanCatalog(cs, Scan(cs).value);
    forall e ensures e in cat <==> e.file in files && Matches(e.file, scheme) && e.number == Number(e.file) {
      ExaminedHas(files, scheme, e.file, e.number);
    }
  }

  /** The sorted map of a successful scan holds exactly the accepted candidates. */
  lemma ScanCatalog(cs: seq<Candidate>, m: map<nat, string>)
    requires Scan(cs) == Success(m)
    ensures forall e :: e in KSort(m) <==> Candidate(e.file, true, e.number) in cs
  {
    ScanContents(cs);
  }

  /** The accepted candidates of an examined listing are its accepted names, each with its number. */
  lemma {:induction false} ExaminedHas(files: seq<string>, scheme: Scheme, f: string, n: nat)
    ensures Candidate(f, true, n) in Examined(files, scheme) <==> f in files && Matches(f, scheme) && n == Number(f)
  {
    if files != [] {
      var init, last := files[..|files| - 1], files[|files| - 1];
      ExaminedHas(init, scheme, f, n);
      assert files == init + [last];
    }
  }

  /**
   * `find_migrations` fails exactly when two names the regex accepts share a
   * number, and the error it gives is "multiple version" for the first
   * accepted name, in listing order, whose number an earlier one already has.
   */
  lemma CatalogRejectsDuplicates(files: seq<string>, scheme: Scheme)
    ensures FindCatalog(files, scheme).Success? <==> Distinct(Examined(files, scheme))
    ensures FindCatalog(files, scheme).Failure? ==>
      exists i, j :: FirstClash(Examined(files, scheme), i, j) && FindCatalog(files, scheme).error == Duplicate(Number(files[j]))
  {
    var cs := Examined(files, scheme);
    ScanSucceedsIffDistinct(cs);
    if FindCatalog(files, scheme).Failure? {
      var i, j :| FirstClash(cs, i, j) && Scan(cs).error == Duplicate(cs[j].number);
      assert cs[j] == Examine(files[j], scheme);
    }
  }

  /**
   * A name the regex rejects, wherever it stands in the listing, changes
   * nothing: it is skipped silently, not reported.
   */
  lemma NonMatchingIgnored(before: seq<string>, stray: string, after: seq<string>, scheme: Scheme)
    requires !Matches(stray, scheme)
    ensures FindCatalog(before + [stray] + after, scheme) == FindCatalog(before + after, scheme)
  {
    ExaminedAppend(before + [stray], after, scheme);
    ExaminedAppend(before, [stray], scheme);
    ExaminedAppend(before, after, scheme);
    ScanSkips(Examined(before, scheme), Examine(stray, scheme), Examined(after, scheme));
  }

  /** Scanning one more name of the listing is one more turn of the scan. */
  lemma ScanNext(files: seq<string>, i: nat, scheme: Scheme)
    requires i < |files|
    ensures Scan(Examined(files[..i + 1], scheme)) == Add(Scan(Examined(files[..i], scheme)), Examine(files[i], scheme))
  {
    assert files[..i + 1][..i] == files[..i];
    ScanSnoc(Examined(files[..i], scheme), Examine(files[i], scheme));
  }

  /** A scan of the listing that fails at name `i` fails there, whatever names follow. */
  lemma ScanStopsAt(files: seq<string>, i: nat, scheme: Scheme)
    requires i < |files| && Scan(Examined(files[..i + 1], scheme)).Failure?
    ensures Scan(Examined(files, scheme)) == Scan(Examined(files[..i + 1], scheme))
  {
    SplitAt(files, i + 1);
    ExaminedAppend(files[..i + 1], files[i + 1..], scheme);
    ScanFailureSticks(Examined(files[..i + 1], scheme), Examined(files[i + 1..], scheme));
  }

  /** A sequence is its part before `k` followed by its part from `k`. */
  lemma SplitAt<T>(s: seq<T>, k: nat)
    requires k <= |s|
    ensures s == s[..k] + s[k..]
  {
  }

  /** Examining a joined listing examines each part. */
  lemma {:induction false} ExaminedAppend(a: seq<string>, b: seq<string>, scheme: Scheme)
    ensures Examined(a + b, scheme) == Examined(a, scheme) + Examined(b, scheme)
    decreases |b|
  {
    if b != [] {
      var n := |b| - 1;
      ExaminedAppend(a, b[..n], scheme);
      assert (a + b)[..|a + b| - 1] == a + b[..n];
      assert (a + b)[|a + b| - 1] == b[n];
    } else {
      assert a + b == a;
    }
  }
}
