/**
 * Migration file names: the basename regex chosen by the numbering scheme,
 * the number and name helpers, and the class name a file must declare
 * (MY_Migration.php, lines 65-67, 224, 349-368).
 */
module Naming {
  import opened MigrationTypes

  /** The `migration_type` setting: three-digit or fourteen-digit prefixes. */
  datatype Scheme = Sequential | Timestamp

  predicate IsDigit(c: char) { '0' <= c <= '9' }

  /** PCRE's `\w` without the `u` modifier: ASCII letters, digits and `_`. */
  predicate IsWordChar(c: char) { 'a' <= c <= 'z' || 'A' <= c <= 'Z' || IsDigit(c) || c == '_' }

  predicate AllDigits(s: string) { forall i :: 0 <= i < |s| ==> IsDigit(s[i]) }

  predicate AllWordChars(s: string) { forall i :: 0 <= i < |s| ==> IsWordChar(s[i]) }

  /** The number of digits in `\d{14}` (timestamp) or `\d{3}` (sequential). */
  function Width(scheme: Scheme): nat { if scheme == Timestamp then 14 else 3 }

  /** `\d{w}_(\w+)` covering the whole of `name`. */
  predicate MatchesWhole(name: string, w: nat)
  {
    |name| >= w + 2 && AllDigits(name[..w]) && name[w] == '_' && AllWordChars(name[w + 1..])
  }

  /**
   * `preg_match('/^\d{w}_(\w+)$/', name)`. Without the `D` modifier, PCRE's
   * `$` also matches just before a final newline.
   */
  predicate Matches(name: string, scheme: Scheme)
  {
    var w := Width(scheme);
    MatchesWhole(name, w) || (|name| > 0 && name[|name| - 1] == '\n' && MatchesWhole(name[..|name| - 1], w))
  }

  /** Where the run of digits that starts at position `k` of `s` ends. */
  function DigitRun(s: string, k: nat): (e: nat)
    requires k <= |s|
    ensures k <= e <= |s|
    decreases |s| - k
  {
    if k == |s| || !IsDigit(s[k]) then k else DigitRun(s, k + 1)
  }

  /**
   * `_get_migration_number`: `sscanf($migration, '%[0-9]+', $number)`, which
   * assigns the leading digit run, or `'0'` when the name does not start with
   * a digit.
   */
  function MigrationNumber(name: string): (r: string)
    ensures r != [] && AllDigits(r) && DigitRun(r, 0) == |r|
    ensures |name| > 0 && IsDigit(name[0]) ==> r <= name && (|r| == |name| || !IsDigit(name[|r|]))
    ensures !(|name| > 0 && IsDigit(name[0])) ==> r == "0"
  {
    var e := DigitRun(name, 0);
    RunDigits(name, 0);
    RunStops(name, 0);
    if e == 0 then
      assert DigitRun("0", 1) == 1;
      "0"
    else
      var r := name[..e];
      assert forall i :: 0 <= i < e ==> r[i] == name[i];
      RunOfDigits(r, 0);
      r
  }

  /**
   * `_get_migration_name`: explode on `_`, drop the first part, implode with
   * `_` — everything after the first underscore, or "" when there is none.
   */
  function MigrationName(name: string): (r: string)
    ensures '_' !in name ==> r == ""
    ensures '_' in name ==> exists k :: 0 <= k < |name| && name[k] == '_' && '_' !in name[..k] && r == name[k + 1..]
  {
    if name == [] then ""
    else if name[0] == '_' then
      assert '_' !in name[..0];
      name[1..]
    else
      var r := MigrationName(name[1..]);
      assert name[1..] == name[1..][..|name| - 1];
      if '_' in name[1..] then
        var k :| 0 <= k < |name| - 1 && name[1..][k] == '_' && '_' !in name[1..][..k] && r == name[1..][k + 1..];
        assert name[..k + 1] == [name[0]] + name[1..][..k];
        assert name[k + 1] == '_' && name[k + 2..] == name[1..][k + 1..];
        r
      else
        r
  }

  function DigitValue(c: char): nat
    requires IsDigit(c)
  {
    (c as int - '0' as int) as nat
  }

  /** The decimal value of the first `k` characters of `s`, all of them digits. */
  function ValueOf(s: string, k: nat): nat
    requires k <= DigitRun(s, 0)
  {
    if k == 0 then 0
    else
      RunDigits(s, 0);
      ValueOf(s, k - 1) * 10 + DigitValue(s[k - 1])
  }

  /**
   * The version a migration file stands for: the value of its leading digit
   * run, which is how PHP reads the string `_get_migration_number` returns
   * (see `NumberReadsDigits`).
   */
  function Number(name: string): nat
  {
    ValueOf(name, DigitRun(name, 0))
  }

  function Lower(c: char): char { if 'A' <= c <= 'Z' then (c as int + 32) as char else c }

  function Upper(c: char): char { if 'a' <= c <= 'z' then (c as int - 32) as char else c }

  /** `strtolower` on ASCII letters. */
  function ToLower(s: string): string
  {
    if s == [] then [] else [Lower(s[0])] + ToLower(s[1..])
  }

  /** `ucfirst`: the first letter upper-cased. */
  function UcFirst(s: string): string
  {
    if s == [] then [] else [Upper(s[0])] + s[1..]
  }

  /** The class a migration file must declare: `'Migration_'.ucfirst(strtolower(name))`. */
  function ClassName(file: string): ClassRef
  {
    MigrationClass(UcFirst(ToLower(MigrationName(file))))
  }

  /** Every name the regex accepts starts with exactly `Width(scheme)` digits and an underscore. */
  lemma MatchShape(name: string, scheme: Scheme)
    requires Matches(name, scheme)
    ensures |name| >= Width(scheme) + 2 && AllDigits(name[..Width(scheme)]) && name[Width(scheme)] == '_'
  {
    var w := Width(scheme);
    if !MatchesWhole(name, w) {
      var p := name[..|name| - 1];
      assert p[..w] == name[..w];
    }
  }

  /** Every character inside a digit run is a digit. */
  lemma {:induction false} RunDigits(s: string, k: nat)
    requires k <= |s|
    ensures forall i :: k <= i < DigitRun(s, k) ==> IsDigit(s[i])
    decreases |s| - k
  {
    if k < |s| && IsDigit(s[k]) {
      RunDigits(s, k + 1);
    }
  }

  /** A digit run stops at the end of the string or at a non-digit. */
  lemma {:induction false} RunStops(s: string, k: nat)
    requires k <= |s|
    ensures DigitRun(s, k) == |s| || !IsDigit(s[DigitRun(s, k)])
    decreases |s| - k
  {
    if k < |s| && IsDigit(s[k]) {
      RunStops(s, k + 1);
    }
  }

  /** A run of digits from `k` that stops at a non-digit or at the end is the digit run from `k`. */
  lemma {:induction false} RunUpTo(s: string, k: nat, w: nat)
    requires k <= w <= |s|
    requires forall i :: k <= i < w ==> IsDigit(s[i])
    requires w == |s| || !IsDigit(s[w])
    ensures DigitRun(s, k) == w
    decreases w - k
  {
    if k < w {
      RunUpTo(s, k + 1, w);
    }
  }

  /** In a string of digits only, the run from `k` reaches the end. */
  lemma RunOfDigits(s: string, k: nat)
    requires k <= |s| && AllDigits(s)
    ensures DigitRun(s, k) == |s|
  {
    RunUpTo(s, k, |s|);
  }

  /** The value of the first `k` digits depends on those digits only. */
  lemma {:induction false} ValueOfPrefix(s: string, t: string, k: nat)
    requires k <= DigitRun(s, 0) && k <= DigitRun(t, 0)
    requires s[..k] == t[..k]
    ensures ValueOf(s, k) == ValueOf(t, k)
  {
    if k > 0 {
      RunDigits(s, 0);
      assert s[..k - 1] == s[..k][..k - 1] && t[..k - 1] == t[..k][..k - 1];
      assert s[k - 1] == s[..k][k - 1] && t[k - 1] == t[..k][k - 1];
      ValueOfPrefix(s, t, k - 1);
    }
  }

  /** The version is the value of the digit string `_get_migration_number` returns. */
  lemma NumberReadsDigits(name: string)
    ensures var r := MigrationNumber(name);
      Number(name) == ValueOf(r, |r|)
  {
    var e := DigitRun(name, 0);
    var r := MigrationNumber(name);
    if e == 0 {
      assert r == "0";
      assert ValueOf(r, 1) == ValueOf(r, 0) * 10 + DigitValue('0');
    } else {
      assert r == name[..e];
      assert r[..e] == name[..e];
      ValueOfPrefix(r, name, e);
    }
  }

  /** The text after an underscore that no earlier underscore precedes is the name part. */
  lemma {:induction false} NameAfter(s: string, k: nat)
    requires k < |s| && s[k] == '_' && '_' !in s[..k]
    ensures MigrationName(s) == s[k + 1..]
  {
    if k > 0 {
      assert s[..k][0] == s[0];
      assert s[1..][..k - 1] == s[1..k];
      NameAfter(s[1..], k - 1);
    }
  }

  /** On a catalog name the number helper returns exactly the `\d{w}` prefix. */
  lemma NumberOfMatch(name: string, scheme: Scheme)
    requires Matches(name, scheme)
    ensures MigrationNumber(name) == name[..Width(scheme)]
  {
    var w := Width(scheme);
    MatchShape(name, scheme);
    assert forall i :: 0 <= i < w ==> name[i] == name[..w][i];
    RunUpTo(name, 0, w);
  }

  /** On a catalog name the name helper returns everything after the `\d{w}_` prefix. */
  lemma NameOfMatch(name: string, scheme: Scheme)
    requires Matches(name, scheme)
    ensures MigrationName(name) == name[Width(scheme) + 1..]
  {
    var w := Width(scheme);
    MatchShape(name, scheme);
    assert '_' !in name[..w] by {
      forall i | 0 <= i < w ensures name[..w][i] != '_' {
        assert IsDigit(name[..w][i]);
      }
    }
    NameAfter(name, w);
  }

  /**
   * The class an accepted file must declare is `Migration_` followed by the
   * part of its basename after the `\d{w}_` prefix, lower-cased, with its
   * first letter upper-cased.
   */
  lemma ClassNameOfMatch(name: string, scheme: Scheme)
    requires Matches(name, scheme)
    ensures ClassText(ClassName(name)) == "Migration_" + UcFirst(ToLower(name[Width(scheme) + 1..]))
  {
    NameOfMatch(name, scheme);
  }

  /** The sequential regex accepts a sample name, and the same name with one final newline. */
  lemma SequentialAccepts()
    ensures Matches("001_create_users", Sequential)
    ensures Matches("001_create_users\n", Sequential)
  {
    var one: string := "001_create_users\n";
    assert one[..|one| - 1] == "001_create_users";
  }

  /**
   * The sequential regex rejects two final newlines, two or four digits, an
   * empty `\w+` tail and a character outside `\w`.
   */
  lemma SequentialRejects()
    ensures !Matches("001_create_users\n\n", Sequential)
    ensures !Matches("01_create_users", Sequential)
    ensures !Matches("0001_create_users", Sequential)
    ensures !Matches("001_", Sequential)
    ensures !Matches("001_create-users", Sequential)
  {
    var two: string := "001_create_users\n\n";
    assert two[4..][|two| - 5] == '\n' && two[..|two| - 1][4..][|two| - 6] == '\n';
    var dash: string := "001_create-users";
    assert dash[4..][6] == '-';
  }

  /** The timestamp regex wants fourteen digits: it accepts a timestamp name and rejects a sequential one. */
  lemma TimestampExamples()
    ensures Matches("20240101120000_add_index", Timestamp)
    ensures !Matches("001_create_users", Timestamp)
  {
  }

  /**
   * For a catalog name, the number helper and the name helper split it in two,
   * and joining them around `_` gives the name back.
   */
  lemma SplitRoundTrip(name: string, scheme: Scheme)
    requires Matches(name, scheme)
    ensures |MigrationNumber(name)| == Width(scheme)
    ensures MigrationNumber(name) + "_" + MigrationName(name) == name
  {
    var w := Width(scheme);
    MatchShape(name, scheme);
    NumberOfMatch(name, scheme);
    NameOfMatch(name, scheme);
    assert "_" == [name[w]];
    JoinAround(name, w);
  }

  /** Cutting a string around position `k` and joining the parts gives it back. */
  lemma JoinAround(s: string, k: nat)
    requires k < |s|
    ensures s[..k] + [s[k]] + s[k + 1..] == s
  {
  }

  /** Two digit runs of one length with the same value are the same digits. */
  lemma {:induction false} ValueInjective(a: string, b: string, k: nat)
    requires k <= DigitRun(a, 0) && k <= DigitRun(b, 0)
    requires ValueOf(a, k) == ValueOf(b, k)
    ensures a[..k] == b[..k]
  {
    if k > 0 {
      RunDigits(a, 0);
      RunDigits(b, 0);
      var p, q := ValueOf(a, k - 1), ValueOf(b, k - 1);
      var x, y := DigitValue(a[k - 1]), DigitValue(b[k - 1]);
      assert p * 10 + x == q * 10 + y;
      assert p == q && x == y;
      ValueInjective(a, b, k - 1);
      assert a[..k] == a[..k - 1] + [a[k - 1]] && b[..k] == b[..k - 1] + [b[k - 1]];
    }
  }

  /**
   * Two catalog names have the same numeric version exactly when their number
   * strings are equal, so keying the catalog by the number's value, as PHP's
   * numeric comparisons do, loses nothing.
   */
  lemma SameNumberSameDigits(a: string, b: string, scheme: Scheme)
    requires Matches(a, scheme) && Matches(b, scheme)
    ensures Number(a) == Number(b) <==> MigrationNumber(a) == MigrationNumber(b)
  {
    var w := Width(scheme);
    NumberOfMatch(a, scheme);
    NumberOfMatch(b, scheme);
    MatchShape(a, scheme);
    MatchShape(b, scheme);
    assert DigitRun(a, 0) == w && DigitRun(b, 0) == w by {
      RunUpTo(a, 0, w);
      RunUpTo(b, 0, w);
    }
    if Number(a) == Number(b) {
      ValueInjective(a, b, w);
    } else if a[..w] == b[..w] {
      ValueOfPrefix(a, b, w);
    }
  }
}
