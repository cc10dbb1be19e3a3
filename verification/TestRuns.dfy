/** One test's verdict, and the comparison of two recorded test runs (tester.py). */
module TestRuns {
  import opened Options

  const SUCCESS := 0
  const CTRL_C := 9
  const REGEX_MISMATCH_ERROR := 100

  // The codes errorCodeToString knows.
  predicate Known(code: int) {
    SUCCESS <= code <= CTRL_C || code == REGEX_MISMATCH_ERROR
  }

  datatype Outcome = Finished | Died

  class TestCase {
    const expected: int
    var regex: map<string, Option<bool>>
    var testPassed: Option<bool>
    var returnedCode: Option<int>
    var whoopReturnCode: Option<int>
    var hasCsvFile: bool

    // The parser lets a test expect success or a real error code, never a mismatch of an expression.
    ghost predicate Valid()
      reads this
    {
      SUCCESS <= expected <= CTRL_C
    }

    // What the parser makes of a test file whose expressions are `keys`.
    constructor (expected: int, keys: set<string>)
      requires SUCCESS <= expected <= CTRL_C
      ensures this.expected == expected && Valid() && hasCsvFile
      ensures regex == map r | r in keys :: None
      ensures testPassed == None && returnedCode == None && whoopReturnCode == None
    {
      this.expected := expected;
      regex := map r | r in keys :: None;
      testPassed, returnedCode, whoopReturnCode, hasCsvFile := None, None, None, true;
    }

    // Some expression, possibly in an earlier run, was looked for and not found.
    ghost predicate Mismatch()
      reads this
    {
      exists r :: r in regex && regex[r] == Some(false)
    }

    // The loop over the expressions.
    method MatchAll(found: set<string>)
      modifies this`regex
      ensures regex == map r | r in old(regex) :: Some(r in found)
      ensures Mismatch() <==> !(old(regex.Keys) <= found)
    {
      var todo := regex.Keys;
      while todo != {}
        invariant regex.Keys == old(regex.Keys) && todo <= regex.Keys
        invariant forall r :: r in regex && r !in todo ==> regex[r] == Some(r in found)
        decreases |todo|
      {
        var r :| r in todo;
        regex := regex[r := Some(r in found)];
        todo := todo - {r};
      }
      assert forall r :: r in regex.Keys && r !in found ==> regex[r] == Some(false);
    }

    // The verdict of one run: the process's return code and the expressions found in its output
    // are inputs. A code with no name raises inside the debug message that looks it up, and the
    // end of a second run raises because the first has deleted the file to print to.
    method Run(code: int, found: set<string>) returns (outcome: Outcome)
      requires Valid()
      modifies this
      ensures outcome.Died? <==> 0 <= code && ((9 < code && code != 100) || !old(hasCsvFile))
      ensures code < 0 ==> unchanged(this)
      ensures 0 <= code ==> whoopReturnCode == Some(code)
      ensures 0 <= code && !Known(code) ==>
        unchanged(`regex) && unchanged(`testPassed) && unchanged(`returnedCode) && unchanged(`hasCsvFile)
      ensures Known(code) ==> !hasCsvFile
      ensures Known(code) ==>
        regex == if code == expected then map r | r in old(regex) :: Some(r in found) else old(regex)
      ensures Known(code) ==> returnedCode == Some(if Mismatch() then REGEX_MISMATCH_ERROR else code)
      ensures Known(code) ==> testPassed == Some(code == expected && old(regex.Keys) <= found)
    {
      if code < 0 {
        return Finished;
      }
      whoopReturnCode := Some(code);
      if !Known(code) {
        return Died;
      }
      if code == expected {
        MatchAll(found);
      }
      if exists r :: r in regex && regex[r] == Some(false) {
        returnedCode := Some(REGEX_MISMATCH_ERROR);
      } else {
        returnedCode := Some(code);
      }
      testPassed := Some(returnedCode == Some(expected));
      outcome := if hasCsvFile then Finished else Died;
      hasCsvFile := false;
    }
  }

  // ----- Canonical names -----

  // str.index: the first place at or after `i` where `prefix` occurs.
  function Find(path: string, prefix: string, i: nat): Option<nat>
    requires i <= |path|
    decreases |path| - i
  {
    if prefix <= path[i..] then Some(i)
    else if i == |path| then None
    else Find(path, prefix, i + 1)
  }

  function Slashes(s: string): (r: string)
    ensures |r| == |s|
  {
    seq(|s|, i requires 0 <= i < |s| => if s[i] == '\\' then '/' else s[i])
  }

  lemma {:induction false} FindBound(path: string, prefix: string, i: nat)
    requires i <= |path|
    ensures Find(path, prefix, i).Some? ==> i <= Find(path, prefix, i).value <= |path|
    decreases |path| - i
  {
    if !(prefix <= path[i..]) && i != |path| {
      FindBound(path, prefix, i + 1);
    }
  }

  /** getCanonicalTestName, with the caller's fall-back to the path itself. */
  function Key(path: string, prefix: string): string {
    match Find(path, prefix, 0)
    case Some(i) => (assert i <= |path| by { FindBound(path, prefix, 0); } Slashes(path[i..]))
    case None => path
  }

  // `prefix` occurs in `dir + rest` right after `dir` and nowhere earlier.
  ghost predicate FirstOccursAfter(dir: string, rest: string, prefix: string) {
    && prefix <= rest
    && forall i :: 0 <= i < |dir| ==> !(prefix <= (dir + rest)[i..])
  }

  lemma {:induction false} FindAfter(dir: string, rest: string, prefix: string, i: nat)
    requires i <= |dir| && FirstOccursAfter(dir, rest, prefix)
    ensures Find(dir + rest, prefix, i) == Some(|dir|)
    decreases |dir| - i
  {
    if i == |dir| {
      assert (dir + rest)[i..] == rest;
    } else {
      FindAfter(dir, rest, prefix, i + 1);
    }
  }

  // The first occurrence of `prefix` in `path` is at `i`.
  ghost predicate FirstAt(path: string, prefix: string, i: nat) {
    && i <= |path| && prefix <= path[i..]
    && forall j :: 0 <= j < i ==> !(prefix <= path[j..])
  }

  lemma {:induction false} FindIsFirst(path: string, prefix: string, i: nat, at: nat)
    requires i <= |path| && forall j :: 0 <= j < i ==> !(prefix <= path[j..])
    ensures Find(path, prefix, i) == Some(at) <==> FirstAt(path, prefix, at)
    decreases |path| - i
  {
    if !(prefix <= path[i..]) && i != |path| {
      FindIsFirst(path, prefix, i + 1, at);
    }
  }

  // `key` is `rest` with every backslash turned round.
  ghost predicate IsTurned(rest: string, key: string) {
    |key| == |rest| && forall k :: 0 <= k < |key| ==> key[k] == if rest[k] == '\\' then '/' else rest[k]
  }

  /** What a test is called: its path from the first occurrence of the prefix on, every backslash
      turned round, or the whole path as it is if the prefix does not occur. */
  ghost predicate Names(path: string, prefix: string, key: string) {
    && (forall i: nat :: FirstAt(path, prefix, i) ==> IsTurned(path[i..], key))
    && ((forall i: nat :: !FirstAt(path, prefix, i)) ==> key == path)
  }

  lemma KeyNames(path: string, prefix: string)
    ensures Names(path, prefix, Key(path, prefix))
  {
    forall i: nat
      ensures Find(path, prefix, 0) == Some(i) <==> FirstAt(path, prefix, i)
    {
      FindIsFirst(path, prefix, 0, i);
    }
    FindBound(path, prefix, 0);
    if Find(path, prefix, 0).Some? {
      assert FirstAt(path, prefix, Find(path, prefix, 0).value);
    }
  }

  lemma OneName(path: string, prefix: string, key: string, key': string)
    requires Names(path, prefix, key) && Names(path, prefix, key')
    ensures key == key'
  {
    if i: nat :| FirstAt(path, prefix, i) {
      assert |key| == |key'| && forall k :: 0 <= k < |key| ==> key[k] == key'[k];
    }
  }

  /** The key of a test is its name and nothing else is. */
  lemma KeyIsName(path: string, prefix: string, key: string)
    ensures key == Key(path, prefix) <==> Names(path, prefix, key)
  {
    KeyNames(path, prefix);
    if Names(path, prefix, key) {
      OneName(path, prefix, key, Key(path, prefix));
    }
  }

  // The same character up to the direction of a slash.
  predicate Alike(c: char, d: char) {
    c == d || (c in "/\\" && d in "/\\")
  }

  predicate AllAlike(a: string, b: string) {
    |a| == |b| && forall k :: 0 <= k < |a| ==> Alike(a[k], b[k])
  }

  lemma TurnedAlike(a: string, b: string, key: string, key': string)
    requires IsTurned(a, key) && IsTurned(b, key')
    ensures key == key' <==> AllAlike(a, b)
  {
    if AllAlike(a, b) {
      forall k | 0 <= k < |key|
        ensures key[k] == key'[k]
      {
        assert Alike(a[k], b[k]);
      }
    }
    if key == key' {
      forall k | 0 <= k < |a|
        ensures Alike(a[k], b[k])
      {
        assert key[k] == key'[k];
      }
    }
  }

  lemma KeyIsTurned(path: string, prefix: string, i: nat)
    requires FirstAt(path, prefix, i)
    ensures IsTurned(path[i..], Key(path, prefix))
  {
    KeyNames(path, prefix);
  }

  /** Two tests share a key exactly if their paths from the prefix on are equal up to the direction
      of the slashes. */
  lemma SameKeyIff(path: string, i: nat, path': string, i': nat, prefix: string)
    requires FirstAt(path, prefix, i) && FirstAt(path', prefix, i')
    ensures Key(path, prefix) == Key(path', prefix) <==> AllAlike(path[i..], path'[i'..])
  {
    KeyIsTurned(path, prefix, i);
    KeyIsTurned(path', prefix, i');
    TurnedAlike(path[i..], path'[i'..], Key(path, prefix), Key(path', prefix));
  }

  /** A test keeps its key when the tree it lives in is moved to another directory. */
  lemma KeyIgnoresDirectory(dir: string, dir': string, rest: string, prefix: string)
    requires FirstOccursAfter(dir, rest, prefix) && FirstOccursAfter(dir', rest, prefix)
    ensures Key(dir + rest, prefix) == Key(dir' + rest, prefix) == Slashes(rest)
  {
    FindAfter(dir, rest, prefix, 0);
    FindAfter(dir', rest, prefix, 0);
    assert (dir + rest)[|dir|..] == rest && (dir' + rest)[|dir'|..] == rest;
  }

  // ----- Comparison -----

  /** testPassed: not yet known, True or False. */
  datatype Verdict = NotRun | Passed | Failed

  datatype Record = Record(path: string, verdict: Verdict)

  type Results = map<string, Verdict>

  // The dictionary of a test list: a later entry with the same key replaces an earlier one.
  function Index(tests: seq<Record>, prefix: string): Results
    decreases |tests|
  {
    if tests == [] then map[]
    else
      var last := tests[|tests| - 1];
      Index(tests[..|tests| - 1], prefix)[Key(last.path, prefix) := last.verdict]
  }

  ghost predicate IsLast(tests: seq<Record>, prefix: string, k: string, i: nat) {
    && i < |tests| && Key(tests[i].path, prefix) == k
    && forall j :: i < j < |tests| ==> Key(tests[j].path, prefix) != k
  }

  // A test with another key at the end changes nothing for this one.
  lemma LastBeforeTheEnd(tests: seq<Record>, prefix: string, k: string, i: nat)
    requires tests != [] && Key(tests[|tests| - 1].path, prefix) != k
    ensures IsLast(tests, prefix, k, i) <==> IsLast(tests[..|tests| - 1], prefix, k, i)
  {
    var n := |tests| - 1;
    if IsLast(tests[..n], prefix, k, i) {
      forall j | i < j < |tests|
        ensures Key(tests[j].path, prefix) != k
      {
        assert j < n ==> tests[..n][j] == tests[j];
      }
    }
    if IsLast(tests, prefix, k, i) {
      forall j | i < j < n
        ensures Key(tests[..n][j].path, prefix) != k
      {
        assert tests[..n][j] == tests[j];
      }
    }
  }

  lemma {:induction false} LastIsIndexed(tests: seq<Record>, prefix: string, k: string, i: nat)
    requires IsLast(tests, prefix, k, i)
    ensures k in Index(tests, prefix) && Index(tests, prefix)[k] == tests[i].verdict
    decreases |tests|
  {
    if i < |tests| - 1 {
      LastBeforeTheEnd(tests, prefix, k, i);
      LastIsIndexed(tests[..|tests| - 1], prefix, k, i);
    }
  }

  lemma {:induction false} IndexedHasLast(tests: seq<Record>, prefix: string, k: string) returns (i: nat)
    requires k in Index(tests, prefix)
    ensures IsLast(tests, prefix, k, i)
    decreases |tests|
  {
    i := |tests| - 1;
    if Key(tests[i].path, prefix) != k {
      i := IndexedHasLast(tests[..|tests| - 1], prefix, k);
      LastBeforeTheEnd(tests, prefix, k, i);
    }
  }

  /** The index holds, for each key, the verdict of the last test with that key, and no other key. */
  lemma IndexHoldsLast(tests: seq<Record>, prefix: string, k: string)
    ensures k in Index(tests, prefix) <==> exists i: nat :: IsLast(tests, prefix, k, i)
    ensures forall i: nat :: IsLast(tests, prefix, k, i) ==>
      k in Index(tests, prefix) && Index(tests, prefix)[k] == tests[i].verdict
  {
    forall i: nat | IsLast(tests, prefix, k, i)
      ensures k in Index(tests, prefix) && Index(tests, prefix)[k] == tests[i].verdict
    {
      LastIsIndexed(tests, prefix, k, i);
    }
    if k in Index(tests, prefix) {
      var i := IndexedHasLast(tests, prefix, k);
    }
  }

  /** An old test is gone, or one that passed no longer does. */
  ghost predicate Worse(o: Results, n: Results) {
    exists k :: k in o && (k !in n || (o[k] == Passed && n[k] != Passed))
  }

  // ----- The comparison in terms of the lists -----

  // Test `i` is the last one of this name.
  ghost predicate LastNamed(tests: seq<Record>, prefix: string, k: string, i: nat) {
    && i < |tests| && Names(tests[i].path, prefix, k)
    && forall j :: i < j < |tests| ==> !Names(tests[j].path, prefix, k)
  }

  lemma LastNamedIsLast(tests: seq<Record>, prefix: string, k: string, i: nat)
    ensures LastNamed(tests, prefix, k, i) <==> IsLast(tests, prefix, k, i)
  {
    forall j | 0 <= j < |tests|
      ensures Key(tests[j].path, prefix) == k <==> Names(tests[j].path, prefix, k)
    {
      KeyIsName(tests[j].path, prefix, k);
    }
  }

  // There is a test of this name, and the last one has this verdict.
  ghost predicate Stands(tests: seq<Record>, prefix: string, k: string, verdict: Verdict) {
    exists i: nat :: LastNamed(tests, prefix, k, i) && tests[i].verdict == verdict
  }

  lemma StandsInIndex(tests: seq<Record>, prefix: string, k: string, verdict: Verdict)
    ensures Stands(tests, prefix, k, verdict) <==> k in Index(tests, prefix) && Index(tests, prefix)[k] == verdict
  {
    IndexHoldsLast(tests, prefix, k);
    forall i: nat
      ensures LastNamed(tests, prefix, k, i) <==> IsLast(tests, prefix, k, i)
    {
      LastNamedIsLast(tests, prefix, k, i);
    }
    if k in Index(tests, prefix) {
      var i: nat :| IsLast(tests, prefix, k, i);
      assert LastNamed(tests, prefix, k, i);
    }
  }

  /** Some name of the old list stands for no test of the new one, or for one that passed and now for
      one that does not. */
  ghost predicate Regressed(before: seq<Record>, after: seq<Record>, prefix: string) {
    exists k, v :: Stands(before, prefix, k, v) &&
      forall v' :: Stands(after, prefix, k, v') ==> v == Passed && v' != Passed
  }

  /** Both lists give every name the same verdict. */
  ghost predicate Unchanged(before: seq<Record>, after: seq<Record>, prefix: string) {
    forall k, v :: Stands(before, prefix, k, v) <==> Stands(after, prefix, k, v)
  }

  lemma ListsDecide(before: seq<Record>, after: seq<Record>, prefix: string)
    ensures Worse(Index(before, prefix), Index(after, prefix)) <==> Regressed(before, after, prefix)
    ensures Index(before, prefix) == Index(after, prefix) <==> Unchanged(before, after, prefix)
  {
    var o, n := Index(before, prefix), Index(after, prefix);
    forall k, v
      ensures Stands(before, prefix, k, v) <==> k in o && o[k] == v
      ensures Stands(after, prefix, k, v) <==> k in n && n[k] == v
    {
      StandsInIndex(before, prefix, k, v);
      StandsInIndex(after, prefix, k, v);
    }
    if Worse(o, n) {
      var k :| k in o && (k !in n || (o[k] == Passed && n[k] != Passed));
      assert Stands(before, prefix, k, o[k]);
    }
    if Regressed(before, after, prefix) {
      var k, v :| Stands(before, prefix, k, v) && forall v' :: Stands(after, prefix, k, v') ==> v == Passed && v' != Passed;
      assert k in n ==> Stands(after, prefix, k, n[k]);
    }
    if Unchanged(before, after, prefix) {
      forall k
        ensures k in o ==> k in n && n[k] == o[k]
        ensures k in n ==> k in o
      {
        assert k in o ==> Stands(before, prefix, k, o[k]);
        assert k in n ==> Stands(after, prefix, k, n[k]);
      }
      assert o == n;
    }
  }

  // ----- The comparison itself -----

  method Tabulate(tests: seq<Record>, prefix: string) returns (r: Results)
    ensures r == Index(tests, prefix)
  {
    r := map[];
    for i := 0 to |tests|
      invariant r == Index(tests[..i], prefix)
    {
      assert tests[..i + 1][..i] == tests[..i];
      r := r[Key(tests[i].path, prefix) := tests[i].verdict];
    }
    assert tests[..|tests|] == tests;
  }

  // The pass over the old tests: how many changed, how many are gone, and whether that is for the worse.
  method ScanOld(o: Results, n: Results) returns (changed: nat, missing: nat, changeIsWorse: bool)
    ensures changed == 0 && missing == 0 <==> forall k :: k in o ==> k in n && n[k] == o[k]
    ensures changeIsWorse <==> Worse(o, n)
  {
    changed, missing, changeIsWorse := 0, 0, false;
    var todo := o.Keys;
    while todo != {}
      invariant todo <= o.Keys
      invariant changed == 0 && missing == 0 <==> forall k :: k in o && k !in todo ==> k in n && n[k] == o[k]
      invariant changeIsWorse <==>
        exists k :: k in o && k !in todo && (k !in n || (o[k] == Passed && n[k] != Passed))
      decreases |todo|
    {
      var k :| k in todo;
      if k in n {
        if o[k] != n[k] {
          changed := changed + 1;
          if o[k] == Passed {
            changeIsWorse := true;
          }
        }
      } else {
        missing := missing + 1;
        changeIsWorse := true;
      }
      todo := todo - {k};
    }
  }

  // The pass over the new tests.
  method ScanNew(o: Results, n: Results) returns (added: nat)
    ensures added == 0 <==> n.Keys <= o.Keys
  {
    added := 0;
    var todo := n.Keys;
    while todo != {}
      invariant todo <= n.Keys
      invariant added == 0 <==> forall k :: k in n && k !in todo ==> k in o
      decreases |todo|
    {
      var k :| k in todo;
      if k !in o {
        added := added + 1;
      }
      todo := todo - {k};
    }
  }

  method DoComparison(oldTests: seq<Record>, newTests: seq<Record>, prefix: string) returns (r: int)
    ensures r == 1 <==> Worse(Index(oldTests, prefix), Index(newTests, prefix))
    ensures r == 0 <==> Index(oldTests, prefix) == Index(newTests, prefix)
    ensures r == 1 <==> Regressed(oldTests, newTests, prefix)
    ensures r == 0 <==> Unchanged(oldTests, newTests, prefix)
    ensures r == -1 || r == 0 || r == 1
  {
    ListsDecide(oldTests, newTests, prefix);
    var o := Tabulate(oldTests, prefix);
    var n := Tabulate(newTests, prefix);
    var changed, missing, changeIsWorse := ScanOld(o, n);
    var added := ScanNew(o, n);
    if changeIsWorse {
      r := 1;
    } else if changed == 0 && missing == 0 && added == 0 {
      assert o == n;
      r := 0;
    } else {
      r := -1;
    }
  }

  // ----- "Not worse" as an order -----

  ghost predicate NotWorse(o: Results, n: Results) {
    !Worse(o, n)
  }

  lemma NotWorseIsReflexive(a: Results)
    ensures NotWorse(a, a)
  {
  }

  /** Accepting run after run never lets a regression against the first one slip through. */
  lemma NotWorseIsTransitive(a: Results, b: Results, c: Results)
    requires NotWorse(a, b) && NotWorse(b, c)
    ensures NotWorse(a, c)
  {
    forall k | k in a
      ensures k in c && (a[k] == Passed ==> c[k] == Passed)
    {
      assert k in b && (a[k] == Passed ==> b[k] == Passed);
    }
  }

  /** Two runs are each not worse than the other exactly if they hold the same tests and pass the
      same ones: a failure and a test that was never run are not told apart. */
  lemma NotWorseBothWays(a: Results, b: Results)
    ensures NotWorse(a, b) && NotWorse(b, a)
            <==> a.Keys == b.Keys && forall k :: k in a ==> (a[k] == Passed <==> b[k] == Passed)
  {
    if NotWorse(a, b) && NotWorse(b, a) {
      forall k
        ensures k in a ==> k in b && (a[k] == Passed ==> b[k] == Passed)
        ensures k in b ==> k in a && (b[k] == Passed ==> a[k] == Passed)
      {
      }
    }
  }
}
