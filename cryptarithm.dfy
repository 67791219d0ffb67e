/**
 * The brute-force cryptarithm solver, A1/cryptoarith.py: the letters of the three words
 * are interned as variables, every word becomes a list of variable indices, and a
 * backtracking search gives the variables distinct digits and keeps the assignments under
 * which the first word plus the second equals the third, none of them with a leading 0.
 */
module Cryptarithm {
  import opened Cells

  /* ---------------- string2array ---------------- */

  /**
   * string2array: look every letter of `word` up in `vars`, append the letters not yet
   * there, and replace each letter with the index of its first occurrence.
   */
  method StringToArray(vars: seq<char>, word: seq<char>) returns (vars': seq<char>, nums: seq<nat>)
    ensures |nums| == |word|
    ensures forall k :: 0 <= k < |word| ==> nums[k] < |vars'| && vars'[nums[k]] == word[k]
    ensures forall k, i :: 0 <= k < |word| && 0 <= i < nums[k] ==> vars'[i] != word[k]
    ensures |vars| <= |vars'| && vars'[..|vars|] == vars
    ensures forall i :: |vars| <= i < |vars'| ==> vars'[i] in word && vars'[i] !in vars'[..i]
    ensures Distinct(vars) ==> Distinct(vars')
  {
    vars' := vars;
    nums := [];
    for k := 0 to |word|
      invariant |nums| == k
      invariant forall q :: 0 <= q < k ==> nums[q] < |vars'| && vars'[nums[q]] == word[q]
      invariant forall q, i :: 0 <= q < k && 0 <= i < nums[q] ==> vars'[i] != word[q]
      invariant |vars| <= |vars'| && vars'[..|vars|] == vars
      invariant forall i :: |vars| <= i < |vars'| ==> vars'[i] in word[..k] && vars'[i] !in vars'[..i]
      invariant Distinct(vars) ==> Distinct(vars')
    {
      var j := Lookup(vars', word[k]);
      if j == |vars'| {  // first occurrence of this letter
        vars' := vars' + [word[k]];
      }
      nums := nums + [j];
    }
  }

  /** The position of the first occurrence of ch in vars, or |vars| when it does not occur. */
  method Lookup(vars: seq<char>, ch: char) returns (j: nat)
    ensures j <= |vars| && ch !in vars[..j]
    ensures j < |vars| ==> vars[j] == ch
  {
    j := 0;
    while j < |vars| && vars[j] != ch
      invariant j <= |vars| && ch !in vars[..j]
    {
      assert vars[..j + 1] == vars[..j] + [vars[j]];
      j := j + 1;
    }
  }

  /* ---------------- get_num ---------------- */

  /** Every index of `nums` picks an entry of `val`. */
  predicate Indexes(nums: seq<nat>, n: nat) {
    forall k :: 0 <= k < |nums| ==> nums[k] < n
  }

  /** The decimal number with digits val[nums[0]], ..., val[nums[last]], most significant first. */
  function Number(nums: seq<nat>, val: seq<int>): int
    requires Indexes(nums, |val|)
  {
    if nums == [] then 0 else 10 * Number(nums[..|nums| - 1], val) + val[nums[|nums| - 1]]
  }

  function Pow10(e: nat): nat {
    if e == 0 then 1 else 10 * Pow10(e - 1)
  }

  /** The same number written positionally: digit k weighs 10 to the power of the digits after it. */
  function Positional(nums: seq<nat>, val: seq<int>): int
    requires Indexes(nums, |val|)
  {
    if nums == [] then 0 else val[nums[0]] * Pow10(|nums| - 1) + Positional(nums[1..], val)
  }

  /** Horner's evaluation agrees with the positional one. */
  lemma {:induction false} NumberIsPositional(nums: seq<nat>, val: seq<int>)
    requires Indexes(nums, |val|)
    ensures Number(nums, val) == Positional(nums, val)
    decreases |nums|
  {
    if |nums| > 1 {
      var n := |nums|;
      NumberIsPositional(nums[..n - 1], val);
      NumberIsPositional(nums[1..], val);
      NumberIsPositional(nums[1..n - 1], val);
      assert nums[..n - 1][1..] == nums[1..n - 1];
      assert nums[1..][..n - 2] == nums[1..n - 1];
    }
  }

  /** All selected entries are decimal digits. */
  predicate DigitsAt(nums: seq<nat>, val: seq<int>)
    requires Indexes(nums, |val|)
  {
    forall k :: 0 <= k < |nums| ==> 0 <= val[nums[k]] <= 9
  }

  /**
   * With decimal digits the number has at most |nums| digits, and exactly |nums| when
   * the leading digit is not 0.
   */
  lemma {:induction false} NumberBounds(nums: seq<nat>, val: seq<int>)
    requires Indexes(nums, |val|) && DigitsAt(nums, val)
    ensures 0 <= Number(nums, val) < Pow10(|nums|)
    ensures |nums| > 0 && val[nums[0]] != 0 ==> Pow10(|nums| - 1) <= Number(nums, val)
    decreases |nums|
  {
    if nums != [] {
      NumberBounds(nums[..|nums| - 1], val);
      NumberIsPositional(nums, val);
      NumberBounds(nums[1..], val);
      NumberIsPositional(nums[1..], val);
    }
  }

  /** get_num: the Horner loop over the word's indices. */
  method GetNum(nums: seq<nat>, val: array<int>) returns (num: int)
    requires Indexes(nums, val.Length)
    ensures num == Number(nums, val[..])
  {
    num := 0;
    for k := 0 to |nums|
      invariant num == Number(nums[..k], val[..])
    {
      assert nums[..k + 1][..k] == nums[..k];
      num := 10 * num + val[nums[k]];
    }
    assert nums[..|nums|] == nums;
  }

  /* ---------------- check_solution ---------------- */

  /** The assignment val solves the puzzle: no leading 0, and the first word plus the second is the third. */
  predicate Satisfies(a1: seq<nat>, a2: seq<nat>, sum: seq<nat>, val: seq<int>)
    requires Indexes(a1, |val|) && Indexes(a2, |val|) && Indexes(sum, |val|)
    requires |a1| > 0 && |a2| > 0 && |sum| > 0
  {
    && val[a1[0]] != 0 && val[a2[0]] != 0 && val[sum[0]] != 0
    && Number(a1, val) + Number(a2, val) == Number(sum, val)
  }

  /** check_solution: refuse a leading 0, then compare the two sides. */
  method CheckSolution(a1: seq<nat>, a2: seq<nat>, sum: seq<nat>, val: array<int>) returns (ok: bool)
    requires Indexes(a1, val.Length) && Indexes(a2, val.Length) && Indexes(sum, val.Length)
    requires |a1| > 0 && |a2| > 0 && |sum| > 0
    ensures ok == Satisfies(a1, a2, sum, val[..])
  {
    if val[a1[0]] == 0 || val[a2[0]] == 0 || val[sum[0]] == 0 {
      return false;
    }
    var n1 := GetNum(a1, val);
    var n2 := GetNum(a2, val);
    var n3 := GetNum(sum, val);
    ok := n1 + n2 == n3;
  }

  /* ---------------- search ---------------- */

  /** Every entry is a decimal digit. */
  predicate Digits(s: seq<int>) {
    forall i :: 0 <= i < |s| ==> 0 <= s[i] <= 9
  }

  /** The three words fit an assignment of n variables and none is empty. */
  predicate Words(a1: seq<nat>, a2: seq<nat>, sum: seq<nat>, n: nat) {
    Indexes(a1, n) && Indexes(a2, n) && Indexes(sum, n) && |a1| > 0 && |a2| > 0 && |sum| > 0
  }

  /**
   * The solutions search reports when called with the first |prefix| variables fixed:
   * once all n are assigned, the assignment itself if it satisfies the puzzle; before
   * that, for each digit 0..9 not yet used, in increasing order, the solutions with
   * that digit next.
   */
  function Enumerate(prefix: seq<int>, n: nat, a1: seq<nat>, a2: seq<nat>, sum: seq<nat>): seq<seq<int>>
    requires |prefix| <= n && Words(a1, a2, sum, n)
    decreases n - |prefix|, 11
  {
    if |prefix| == n then (if Satisfies(a1, a2, sum, prefix) then [prefix] else [])
    else Branches(prefix, n, a1, a2, sum, 0)
  }

  /** The solutions with next digit d, d+1, ..., 9, skipping the digits already used. */
  function Branches(prefix: seq<int>, n: nat, a1: seq<nat>, a2: seq<nat>, sum: seq<nat>, d: nat): seq<seq<int>>
    requires |prefix| < n && Words(a1, a2, sum, n)
    decreases n - |prefix|, 10 - d
  {
    if d >= 10 then []
    else (if d in prefix then [] else Enumerate(prefix + [d], n, a1, a2, sum)) + Branches(prefix, n, a1, a2, sum, d + 1)
  }

  /** A complete assignment that extends `prefix`, uses distinct digits and solves the puzzle. */
  predicate Completes(s: seq<int>, prefix: seq<int>, n: nat, a1: seq<nat>, a2: seq<nat>, sum: seq<nat>)
    requires Words(a1, a2, sum, n)
  {
    |s| == n && |prefix| <= n && s[..|prefix|] == prefix && Digits(s) && Distinct(s) && Satisfies(a1, a2, sum, s)
  }

  /**
   * The reported solutions are exactly the complete injective digit assignments that
   * extend the prefix and satisfy the puzzle: search checks nothing incomplete, never
   * reuses a digit and misses no solution.
   */
  lemma {:induction false} EnumerateSpec(prefix: seq<int>, n: nat, a1: seq<nat>, a2: seq<nat>, sum: seq<nat>)
    requires |prefix| <= n && Words(a1, a2, sum, n)
    requires Digits(prefix) && Distinct(prefix)
    ensures forall s :: s in Enumerate(prefix, n, a1, a2, sum) <==> Completes(s, prefix, n, a1, a2, sum)
    decreases n - |prefix|, 11
  {
    if |prefix| == n {
      forall s | Completes(s, prefix, n, a1, a2, sum)
        ensures s == prefix
      {
        assert s[..|prefix|] == s;
      }
    } else {
      BranchesSpec(prefix, n, a1, a2, sum, 0);
    }
  }

  /** Branches from digit d lists the solutions whose next digit is at least d. */
  lemma {:induction false} BranchesSpec(prefix: seq<int>, n: nat, a1: seq<nat>, a2: seq<nat>, sum: seq<nat>, d: nat)
    requires |prefix| < n && Words(a1, a2, sum, n)
    requires Digits(prefix) && Distinct(prefix)
    ensures forall s :: s in Branches(prefix, n, a1, a2, sum, d) <==>
      Completes(s, prefix, n, a1, a2, sum) && d <= s[|prefix|]
    decreases n - |prefix|, 10 - d
  {
    var m := |prefix|;
    if d >= 10 {
      forall s | Completes(s, prefix, n, a1, a2, sum)
        ensures s[m] < d
      {
      }
    } else {
      BranchesSpec(prefix, n, a1, a2, sum, d + 1);
      var next := prefix + [d];
      if d !in prefix {
        assert Distinct(next) by {
          forall i, j | 0 <= i < j < |next|
            ensures next[i] != next[j]
          {
            if j == m {
              assert next[i] == prefix[i];
            }
          }
        }
        EnumerateSpec(next, n, a1, a2, sum);
      }
      forall s | Completes(s, prefix, n, a1, a2, sum) && s[m] == d
        ensures d !in prefix && Completes(s, next, n, a1, a2, sum)
      {
        assert s[..m + 1] == next;
      }
      forall s | d !in prefix && Completes(s, next, n, a1, a2, sum)
        ensures Completes(s, prefix, n, a1, a2, sum) && s[m] == d
      {
        assert s[..m + 1][..m] == s[..m];
        assert s[m] == s[..m + 1][m];
      }
    }
  }

  /** The digit-is-free test of search: is d among val[0 .. k)? */
  method Unused(val: array<int>, k: nat, d: int) returns (free: bool)
    requires k <= val.Length
    ensures free <==> d !in val[..k]
  {
    var j := 0;
    while j < k && val[j] != d
      invariant 0 <= j <= k
      invariant forall i :: 0 <= i < j ==> val[i] != d
    {
      j := j + 1;
    }
    free := j == k;
  }

  /**
   * search: with val[0 .. k) assigned, report every solution that extends it, in the
   * order the loop over digits finds them (the printing is modelled by collecting the
   * solutions). The assigned prefix is left as it was.
   */
  method Search(k: nat, a1: seq<nat>, a2: seq<nat>, sum: seq<nat>, val: array<int>) returns (found: seq<seq<int>>)
    requires k <= val.Length && Words(a1, a2, sum, val.Length)
    modifies val
    decreases val.Length - k, 2
    ensures val[..k] == old(val[..k])
    ensures found == Enumerate(old(val[..k]), val.Length, a1, a2, sum)
  {
    if k == val.Length {
      assert val[..] == val[..k];
      var ok := CheckSolution(a1, a2, sum, val);
      found := if ok then [val[..]] else [];
    } else {
      found := TryDigits(k, a1, a2, sum, val);
    }
  }

  /** The digit loop of search: the solutions with each unused digit 0..9 in position k, in order. */
  method TryDigits(k: nat, a1: seq<nat>, a2: seq<nat>, sum: seq<nat>, val: array<int>) returns (found: seq<seq<int>>)
    requires k < val.Length && Words(a1, a2, sum, val.Length)
    modifies val
    decreases val.Length - k, 1
    ensures val[..k] == old(val[..k])
    ensures found == Branches(old(val[..k]), val.Length, a1, a2, sum, 0)
  {
    ghost var prefix := val[..k];
    found := [];
    for d := 0 to 10
      invariant val[..k] == prefix
      invariant found + Branches(prefix, val.Length, a1, a2, sum, d) == Branches(prefix, val.Length, a1, a2, sum, 0)
    {
      var more := TryDigit(k, d, a1, a2, sum, val);
      found := found + more;
    }
  }

  /** One turn of search's digit loop: digit d, if unused, in position k and the search below it. */
  method TryDigit(k: nat, d: nat, a1: seq<nat>, a2: seq<nat>, sum: seq<nat>, val: array<int>) returns (more: seq<seq<int>>)
    requires k < val.Length && Words(a1, a2, sum, val.Length)
    modifies val
    decreases val.Length - k, 0
    ensures val[..k] == old(val[..k])
    ensures more == if d in old(val[..k]) then [] else Enumerate(old(val[..k]) + [d], val.Length, a1, a2, sum)
  {
    ghost var prefix := val[..k];
    var free := Unused(val, k, d);
    more := [];
    if free {
      val[k] := d;
      assert val[..k + 1] == prefix + [d];
      more := Search(k + 1, a1, a2, sum, val);
      assert val[..k] == val[..k + 1][..k];
    }
  }

  /* ---------------- the solver's pipeline ---------------- */

  /** The letters' values: variable i gets val[i]. */
  function Assignment(vars: seq<char>, val: seq<int>): map<char, int>
    requires |vars| == |val| && Distinct(vars)
  {
    map i | 0 <= i < |vars| :: vars[i] := val[i]
  }

  /** A word's decimal value under a letter assignment, leading letter most significant. */
  function WordValue(word: seq<char>, sigma: map<char, int>): int
    requires forall k :: 0 <= k < |word| ==> word[k] in sigma
  {
    if word == [] then 0 else 10 * WordValue(word[..|word| - 1], sigma) + sigma[word[|word| - 1]]
  }

  /** An interned word evaluates like the word itself under the letters' assignment. */
  lemma {:induction false} NumberIsWordValue(nums: seq<nat>, word: seq<char>, vars: seq<char>, val: seq<int>)
    requires |vars| == |val| && Distinct(vars) && |nums| == |word|
    requires forall k :: 0 <= k < |word| ==> nums[k] < |vars| && vars[nums[k]] == word[k]
    ensures Indexes(nums, |val|)
    ensures forall k :: 0 <= k < |word| ==> word[k] in Assignment(vars, val) && Assignment(vars, val)[word[k]] == val[nums[k]]
    ensures Number(nums, val) == WordValue(word, Assignment(vars, val))
  {
    var sigma := Assignment(vars, val);
    forall k | 0 <= k < |word|
      ensures word[k] in sigma && sigma[word[k]] == val[nums[k]]
    {
      assert vars[nums[k]] in sigma;
    }
    if word != [] {
      var n := |word|;
      NumberIsWordValue(nums[..n - 1], word[..n - 1], vars, val);
    }
  }

  /**
   * The puzzle solved at the level of letters: distinct digits for the distinct letters,
   * no word starting with a letter worth 0, and the first word plus the second equal to
   * the third.
   */
  predicate LetterSolution(w1: seq<char>, w2: seq<char>, w3: seq<char>, vars: seq<char>, s: seq<int>)
    requires |w1| > 0 && |w2| > 0 && |w3| > 0 && Distinct(vars)
    requires forall c :: c in w1 || c in w2 || c in w3 ==> c in vars
  {
    |s| == |vars| && Digits(s) && Distinct(s) &&
    var sigma := Assignment(vars, s);
    assert forall c :: c in vars ==> c in sigma by {
      forall c | c in vars ensures c in sigma {
        var i :| 0 <= i < |vars| && vars[i] == c;
      }
    }
    && sigma[w1[0]] != 0 && sigma[w2[0]] != 0 && sigma[w3[0]] != 0
    && WordValue(w1, sigma) + WordValue(w2, sigma) == WordValue(w3, sigma)
  }

  /**
   * The data flow of main without reading or printing: intern the three words, start
   * every variable at 0 and search from the first. The variables are the distinct
   * letters of the words, and the solutions reported are exactly the letter-level
   * solutions of the puzzle.
   */
  method Solve(w1: seq<char>, w2: seq<char>, w3: seq<char>) returns (vars: seq<char>, solutions: seq<seq<int>>)
    requires |w1| > 0 && |w2| > 0 && |w3| > 0
    ensures Distinct(vars) && forall c :: c in vars <==> c in w1 || c in w2 || c in w3
    ensures forall s :: s in solutions <==> LetterSolution(w1, w2, w3, vars, s)
  {
    var v1, a1 := StringToArray([], w1);
    var v2, a2 := StringToArray(v1, w2);
    var v3, sum := StringToArray(v2, w3);
    vars := v3;
    Interned(w1, w2, w3, v1, v2, vars, a1, a2, sum);
    var val := new int[|vars|](_ => 0);
    solutions := Search(0, a1, a2, sum, val);
    EnumerateSpec([], |vars|, a1, a2, sum);
    forall s
      ensures Completes(s, [], |vars|, a1, a2, sum) <==> LetterSolution(w1, w2, w3, vars, s)
    {
      SameSolutions(w1, w2, w3, vars, a1, a2, sum, s);
    }
  }

  /** An assignment of the variables solves the interned puzzle exactly when it solves the letter puzzle. */
  lemma SameSolutions(w1: seq<char>, w2: seq<char>, w3: seq<char>, vars: seq<char>,
                      a1: seq<nat>, a2: seq<nat>, sum: seq<nat>, s: seq<int>)
    requires |w1| > 0 && |w2| > 0 && |w3| > 0 && Distinct(vars)
    requires forall c :: c in vars <==> c in w1 || c in w2 || c in w3
    requires |a1| == |w1| && |a2| == |w2| && |sum| == |w3|
    requires forall k :: 0 <= k < |w1| ==> a1[k] < |vars| && vars[a1[k]] == w1[k]
    requires forall k :: 0 <= k < |w2| ==> a2[k] < |vars| && vars[a2[k]] == w2[k]
    requires forall k :: 0 <= k < |w3| ==> sum[k] < |vars| && vars[sum[k]] == w3[k]
    ensures Words(a1, a2, sum, |vars|)
    ensures Completes(s, [], |vars|, a1, a2, sum) <==> LetterSolution(w1, w2, w3, vars, s)
  {
    if |s| == |vars| {
      NumberIsWordValue(a1, w1, vars, s);
      NumberIsWordValue(a2, w2, vars, s);
      NumberIsWordValue(sum, w3, vars, s);
      var sigma := Assignment(vars, s);
      assert sigma[w1[0]] == s[a1[0]] && sigma[w2[0]] == s[a2[0]] && sigma[w3[0]] == s[sum[0]];
      assert s[..0] == [];
    }
  }

  /** What interning the three words in turn leaves: each index names its letter in the final variables. */
  lemma Interned(w1: seq<char>, w2: seq<char>, w3: seq<char>, v1: seq<char>, v2: seq<char>, v3: seq<char>,
                 a1: seq<nat>, a2: seq<nat>, sum: seq<nat>)
    requires |a1| == |w1| && |a2| == |w2| && |sum| == |w3|
    requires forall k :: 0 <= k < |w1| ==> a1[k] < |v1| && v1[a1[k]] == w1[k]
    requires forall k :: 0 <= k < |w2| ==> a2[k] < |v2| && v2[a2[k]] == w2[k]
    requires forall k :: 0 <= k < |w3| ==> sum[k] < |v3| && v3[sum[k]] == w3[k]
    requires |v1| <= |v2| && v2[..|v1|] == v1 && |v2| <= |v3| && v3[..|v2|] == v2
    requires forall i :: 0 <= i < |v1| ==> v1[i] in w1
    requires forall i :: |v1| <= i < |v2| ==> v2[i] in w2
    requires forall i :: |v2| <= i < |v3| ==> v3[i] in w3
    ensures forall k :: 0 <= k < |w1| ==> a1[k] < |v3| && v3[a1[k]] == w1[k]
    ensures forall k :: 0 <= k < |w2| ==> a2[k] < |v3| && v3[a2[k]] == w2[k]
    ensures forall c :: c in v3 <==> c in w1 || c in w2 || c in w3
  {
    forall k | 0 <= k < |w1|
      ensures v3[a1[k]] == w1[k]
    {
      assert v3[a1[k]] == v2[a1[k]] == v1[a1[k]];
    }
    forall k | 0 <= k < |w2|
      ensures v3[a2[k]] == w2[k]
    {
      assert v3[a2[k]] == v2[a2[k]];
    }
    forall c | c in w1 || c in w2 || c in w3
      ensures c in v3
    {
      if c in w1 {
        var k :| 0 <= k < |w1| && w1[k] == c;
        assert v3[a1[k]] == c;
      } else if c in w2 {
        var k :| 0 <= k < |w2| && w2[k] == c;
        assert v3[a2[k]] == c;
      } else {
        var k :| 0 <= k < |w3| && w3[k] == c;
        assert v3[sum[k]] == c;
      }
    }
    forall c | c in v3
      ensures c in w1 || c in w2 || c in w3
    {
      var i :| 0 <= i < |v3| && v3[i] == c;
      if i < |v1| {
        assert v1[i] == c;
      } else if i < |v2| {
        assert v2[i] == c;
      }
    }
  }
}
