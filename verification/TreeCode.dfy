/** The canonical code of a file tree: equal codes mean trees that are equal up to the order of
    directory entries, and no code is the beginning of another one. */
module TreeCode {

  /** A file with its size bucket and open mark, or a directory with its entries in any order. */
  datatype Tree = File(bucket: nat, open: bool) | Dir(kids: seq<Tree>)

  // ----- The code -----

  function Digit(n: nat): char
    requires n < 10
  {
    '0' + n as char
  }

  function Decimal(n: nat): string {
    if n < 10 then [Digit(n)] else Decimal(n / 10) + [Digit(n % 10)]
  }

  function FileCode(bucket: nat, open: bool): string {
    "(" + Decimal(bucket) + (if open then "#)" else ")")
  }

  function Flat(codes: seq<string>): string {
    if codes == [] then "" else codes[0] + Flat(codes[1..])
  }

  /** Comparison of zero-terminated strings; the end of a sequence counts as the terminator. */
  function Strcmp(a: seq<char>, b: seq<char>): int
    decreases |a| + |b|
  {
    var ca, cb := if a == [] then '\0' else a[0], if b == [] then '\0' else b[0];
    if ca < cb then -1
    else if cb < ca then 1
    else if ca == '\0' then 0
    else Strcmp(a[1..], b[1..])
  }

  function Insert(s: string, sorted: seq<string>): seq<string> {
    if sorted == [] then [s]
    else if Strcmp(s, sorted[0]) <= 0 then [s] + sorted
    else [sorted[0]] + Insert(s, sorted[1..])
  }

  function Sort(codes: seq<string>): seq<string> {
    if codes == [] then [] else Insert(codes[0], Sort(codes[1..]))
  }

  function Codes(kids: seq<Tree>): seq<string> {
    seq(|kids|, i requires 0 <= i < |kids| => Code(kids[i]))
  }

  /** A directory is coded by the sorted codes of its entries. */
  function Code(t: Tree): string {
    match t
    case File(bucket, open) => FileCode(bucket, open)
    case Dir(kids) => "[" + Flat(Sort(Codes(kids))) + "]"
  }

  // ----- Order -----

  predicate Plain(s: string) {
    forall i :: 0 <= i < |s| ==> s[i] != '\0'
  }

  lemma {:induction false} StrcmpZero(a: string, b: string)
    requires Plain(a) && Plain(b)
    ensures Strcmp(a, b) == 0 <==> a == b
    ensures Strcmp(a, b) == -Strcmp(b, a)
    decreases |a|
  {
    if a != [] && b != [] && a[0] == b[0] {
      StrcmpZero(a[1..], b[1..]);
      assert a == [a[0]] + a[1..] && b == [b[0]] + b[1..];
    }
  }

  lemma {:induction false} StrcmpTrans(a: string, b: string, c: string)
    requires Plain(a) && Plain(b) && Plain(c) && Strcmp(a, b) <= 0 && Strcmp(b, c) <= 0
    ensures Strcmp(a, c) <= 0
    decreases |a|
  {
    if a != [] && b != [] && c != [] && a[0] == b[0] && b[0] == c[0] {
      StrcmpTrans(a[1..], b[1..], c[1..]);
    }
  }

  ghost predicate AllPlain(codes: seq<string>) {
    forall i :: 0 <= i < |codes| ==> Plain(codes[i])
  }

  ghost predicate Sorted(codes: seq<string>) {
    forall i, j :: 0 <= i < j < |codes| ==> Strcmp(codes[i], codes[j]) <= 0
  }

  lemma SortedCons(s: string, rest: seq<string>)
    requires Sorted(rest) && forall j :: 0 <= j < |rest| ==> Strcmp(s, rest[j]) <= 0
    ensures Sorted([s] + rest)
  {
    hide Strcmp;
  }

  lemma SortedTail(codes: seq<string>)
    requires Sorted(codes) && AllPlain(codes) && codes != []
    ensures Sorted(codes[1..]) && AllPlain(codes[1..]) && codes == [codes[0]] + codes[1..]
    ensures forall x :: x in codes[1..] ==> Strcmp(codes[0], x) <= 0
  {
    hide Strcmp, Plain;
    forall x | x in codes[1..] ensures Strcmp(codes[0], x) <= 0 {
      var k :| 0 <= k < |codes[1..]| && codes[1..][k] == x;
      assert codes[k + 1] == x;
    }
  }

  lemma InsertAfter(s: string, sorted: seq<string>, rest: seq<string>)
    requires sorted != [] && multiset(rest) == multiset{s} + multiset(sorted[1..]) && Strcmp(sorted[0], s) <= 0
    requires forall j :: 0 < j < |sorted| ==> Strcmp(sorted[0], sorted[j]) <= 0
    ensures forall j :: 0 <= j < |rest| ==> Strcmp(sorted[0], rest[j]) <= 0
  {
    hide Strcmp;
    forall j | 0 <= j < |rest| ensures Strcmp(sorted[0], rest[j]) <= 0 {
      assert rest[j] in multiset(rest);
      if rest[j] != s {
        assert rest[j] in sorted[1..];
      }
    }
  }

  lemma {:induction false} InsertSorted(s: string, sorted: seq<string>)
    requires Plain(s) && AllPlain(sorted) && Sorted(sorted)
    ensures multiset(Insert(s, sorted)) == multiset{s} + multiset(sorted)
    ensures Sorted(Insert(s, sorted)) && AllPlain(Insert(s, sorted))
  {
    hide Strcmp, Plain;
    if sorted == [] {
    } else {
      SortedTail(sorted);
      if Strcmp(s, sorted[0]) <= 0 {
        forall j | 0 <= j < |sorted| ensures Strcmp(s, sorted[j]) <= 0 {
          if j > 0 {
            StrcmpTrans(s, sorted[0], sorted[j]);
          }
        }
        SortedCons(s, sorted);
      } else {
        var rest := Insert(s, sorted[1..]);
        InsertSorted(s, sorted[1..]);
        StrcmpZero(s, sorted[0]);
        InsertAfter(s, sorted, rest);
        SortedCons(sorted[0], rest);
      }
    }
  }

  lemma {:induction false} SortSorts(codes: seq<string>)
    requires AllPlain(codes)
    ensures multiset(Sort(codes)) == multiset(codes) && Sorted(Sort(codes)) && AllPlain(Sort(codes))
  {
    if codes != [] {
      SortSorts(codes[1..]);
      InsertSorted(codes[0], Sort(codes[1..]));
      assert codes == [codes[0]] + codes[1..];
    }
  }

  lemma InTail(x: string, s: seq<string>)
    requires x in s
    ensures x == s[0] || x in s[1..]
  {
  }

  /** Sorting leaves no choice. */
  lemma {:induction false} SortedUnique(a: seq<string>, b: seq<string>)
    requires AllPlain(a) && AllPlain(b) && Sorted(a) && Sorted(b) && multiset(a) == multiset(b)
    ensures a == b
  {
    hide Strcmp, Plain;
    assert |a| == |multiset(a)| == |multiset(b)| == |b|;
    if a != [] {
      SortedTail(a);
      SortedTail(b);
      assert a[0] in multiset(b) && b[0] in multiset(a);
      StrcmpZero(a[0], b[0]);
      InTail(a[0], b);
      InTail(b[0], a);
      Cancel(a[0], multiset(a[1..]), multiset(b[1..]));
      SortedUnique(a[1..], b[1..]);
    }
  }

  lemma Cancel<T>(x: T, a: multiset<T>, b: multiset<T>)
    requires multiset{x} + a == multiset{x} + b
    ensures a == b
  {
    assert a == multiset{x} + a - multiset{x};
    assert b == multiset{x} + b - multiset{x};
  }

  // ----- Codes are balanced -----

  function Step(c: char): int {
    if c == '(' || c == '[' then 1 else if c == ')' || c == ']' then -1 else 0
  }

  function Depth(s: string): int {
    if s == [] then 0 else Depth(s[..|s| - 1]) + Step(s[|s| - 1])
  }

  lemma {:induction false} DepthAdd(a: string, b: string)
    ensures Depth(a + b) == Depth(a) + Depth(b)
  {
    if b == [] {
      assert a + b == a;
    } else {
      assert (a + b)[..|a + b| - 1] == a + b[..|b| - 1];
      DepthAdd(a, b[..|b| - 1]);
    }
  }

  /** The brackets open at the start are closed at the end and not before. */
  ghost predicate Balanced(s: string) {
    |s| > 0 && Plain(s) && Depth(s) == 0 && forall i :: 0 < i < |s| ==> Depth(s[..i]) > 0
  }

  /** No balanced string is the beginning of another one. */
  lemma PrefixFree(a: string, b: string)
    requires Balanced(a) && Balanced(b) && a <= b
    ensures a == b
  {
    assert b[..|a|] == a;
  }

  predicate Flatten(s: string) {
    forall i :: 0 <= i < |s| ==> Step(s[i]) == 0 && s[i] != '\0'
  }

  lemma {:induction false} FlatDepth(s: string)
    requires Flatten(s)
    ensures Depth(s) == 0
  {
    if s != [] {
      FlatDepth(s[..|s| - 1]);
    }
  }

  lemma {:induction false} DecimalFlat(n: nat)
    ensures |Decimal(n)| > 0 && forall i :: 0 <= i < |Decimal(n)| ==> '0' <= Decimal(n)[i] <= '9'
  {
    if n >= 10 {
      DecimalFlat(n / 10);
    }
  }

  /** Wrapping what never goes below its start gives a balanced string. */
  lemma Wrap(open: char, s: string, close: char)
    requires Step(open) == 1 && Step(close) == -1 && Plain(s)
    requires Depth(s) == 0 && forall i :: 0 <= i <= |s| ==> Depth(s[..i]) >= 0
    ensures Balanced([open] + s + [close])
  {
    var w := [open] + s + [close];
    forall i | 0 <= i <= |s| ensures Depth(w[..i + 1]) == 1 + Depth(s[..i]) {
      assert w[..i + 1] == [open] + s[..i];
      DepthAdd([open], s[..i]);
      assert [open][..0] == [];
    }
    assert s[..|s|] == s;
    assert w[..|w| - 1] == w[..|s| + 1];
    forall i | 0 < i < |w| ensures Depth(w[..i]) > 0 {
      var k := i - 1;
      assert Depth(w[..k + 1]) == 1 + Depth(s[..k]);
    }
  }

  lemma FileBalanced(bucket: nat, open: bool)
    ensures Balanced(FileCode(bucket, open))
  {
    var s := Decimal(bucket) + if open then "#" else "";
    DecimalFlat(bucket);
    assert Flatten(s);
    forall i | 0 <= i <= |s| ensures Depth(s[..i]) == 0 {
      FlatDepth(s[..i]);
    }
    assert s[..|s|] == s;
    Wrap('(', s, ')');
    assert FileCode(bucket, open) == ['('] + s + [')'];
  }

  ghost predicate AllBalanced(codes: seq<string>) {
    forall i :: 0 <= i < |codes| ==> Balanced(codes[i])
  }

  lemma {:induction false} FlatNonneg(codes: seq<string>, i: nat)
    requires AllBalanced(codes) && i <= |Flat(codes)|
    ensures Depth(Flat(codes)) == 0 && Plain(Flat(codes)) && Depth(Flat(codes)[..i]) >= 0
  {
    if codes == [] {
    } else {
      var c, rest := codes[0], Flat(codes[1..]);
      FlatNonneg(codes[1..], if i >= |c| then i - |c| else 0);
      DepthAdd(c, rest);
      if i < |c| {
        assert (c + rest)[..i] == c[..i];
        if i == 0 {
          assert c[..i] == [];
        }
      } else {
        assert (c + rest)[..i] == c + rest[..i - |c|];
        DepthAdd(c, rest[..i - |c|]);
      }
    }
  }

  lemma {:induction false} CodeBalanced(t: Tree)
    ensures Balanced(Code(t))
  {
    match t
    case File(bucket, open) => FileBalanced(bucket, open);
    case Dir(kids) =>
      forall i | 0 <= i < |kids| ensures Balanced(Codes(kids)[i]) {
        CodeBalanced(kids[i]);
      }
      var sorted := Sort(Codes(kids));
      SortBalanced(Codes(kids));
      FlatNonneg(sorted, 0);
      forall i | 0 <= i <= |Flat(sorted)| ensures Depth(Flat(sorted)[..i]) >= 0 {
        FlatNonneg(sorted, i);
      }
      Wrap('[', Flat(sorted), ']');
  }

  lemma SortBalanced(codes: seq<string>)
    requires AllBalanced(codes)
    ensures AllBalanced(Sort(codes)) && Sorted(Sort(codes)) && AllPlain(Sort(codes))
    ensures multiset(Sort(codes)) == multiset(codes)
  {
    SortSorts(codes);
    forall i | 0 <= i < |Sort(codes)| ensures Balanced(Sort(codes)[i]) {
      assert Sort(codes)[i] in multiset(codes);
    }
  }

  /** A concatenation of balanced strings can be taken apart in one way only. */
  lemma {:induction false} FlatUnique(a: seq<string>, b: seq<string>)
    requires AllBalanced(a) && AllBalanced(b) && Flat(a) == Flat(b)
    ensures a == b
  {
    assert a != [] ==> |Flat(a)| >= |a[0]| > 0;
    assert b != [] ==> |Flat(b)| >= |b[0]| > 0;
    if a != [] {
      var w := Flat(a);
      assert w[..|a[0]|] == a[0] && w[..|b[0]|] == b[0];
      if |a[0]| <= |b[0]| {
        assert a[0] <= b[0];
        PrefixFree(a[0], b[0]);
      } else {
        assert b[0] <= a[0];
        PrefixFree(b[0], a[0]);
      }
      assert w[|a[0]|..] == Flat(a[1..]) == Flat(b[1..]);
      FlatUnique(a[1..], b[1..]);
      assert a == [a[0]] + a[1..] && b == [b[0]] + b[1..];
    }
  }

  /** Comparing two buffers that start with codes: what follows the codes does not matter unless
      the codes are the same. */
  lemma {:induction false} StaleBuffers(a: string, b: string, x: seq<char>, y: seq<char>)
    requires Plain(a) && Plain(b) && !(a <= b) && !(b <= a)
    ensures Strcmp(a + x, b + y) == Strcmp(a, b) != 0
    decreases |a|
  {
    assert a != [] && b != [];
    if a[0] == b[0] {
      assert (a + x)[1..] == a[1..] + x && (b + y)[1..] == b[1..] + y;
      assert a == [a[0]] + a[1..] && b == [b[0]] + b[1..];
      StaleBuffers(a[1..], b[1..], x, y);
    }
  }

  lemma CompareEncode(a: Tree, b: Tree, x: seq<char>, y: seq<char>)
    requires Code(a) != Code(b)
    ensures Strcmp(Code(a) + x, Code(b) + y) == Strcmp(Code(a), Code(b)) != 0
  {
    CodeBalanced(a);
    CodeBalanced(b);
    if Code(a) <= Code(b) {
      PrefixFree(Code(a), Code(b));
    }
    if Code(b) <= Code(a) {
      PrefixFree(Code(b), Code(a));
    }
    StaleBuffers(Code(a), Code(b), x, y);
  }

  // ----- Isomorphism -----

  ghost predicate Perm(p: seq<nat>, n: nat) {
    && |p| == n
    && (forall i :: 0 <= i < n ==> p[i] < n)
    && (forall i, j :: 0 <= i < j < n ==> p[i] != p[j])
  }

  /** Equal but for the order of entries, at every level. */
  ghost predicate Iso(a: Tree, b: Tree) {
    match (a, b)
    case (File(k, o), File(l, q)) => k == l && o == q
    case (Dir(x), Dir(y)) =>
      |x| == |y| && exists p: seq<nat> :: Perm(p, |x|) && forall i :: 0 <= i < |x| ==> Iso(x[i], y[p[i]])
    case _ => false
  }

  function Drop<T>(s: seq<T>, j: nat): seq<T>
    requires j < |s|
  {
    s[..j] + s[j + 1..]
  }

  lemma DropMultiset<T>(s: seq<T>, j: nat)
    requires j < |s|
    ensures multiset(s) == multiset{s[j]} + multiset(Drop(s, j))
  {
    assert s == s[..j] + [s[j]] + s[j + 1..];
  }

  function Shift(k: nat, j: nat): nat {
    if k < j then k else k + 1
  }

  /** Equal multisets can be matched up. */
  lemma {:induction false} MatchUp(s: seq<string>, t: seq<string>) returns (p: seq<nat>)
    requires multiset(s) == multiset(t)
    ensures |s| == |t| && Perm(p, |s|) && forall i :: 0 <= i < |s| ==> s[i] == t[p[i]]
    decreases |s|
  {
    assert |s| == |multiset(s)| == |multiset(t)| == |t|;
    if s == [] {
      p := [];
    } else {
      assert s[0] in multiset(t);
      var j :| 0 <= j < |t| && t[j] == s[0];
      DropMultiset(t, j);
      assert s == [s[0]] + s[1..];
      Cancel(s[0], multiset(s[1..]), multiset(Drop(t, j)));
      var q := MatchUp(s[1..], Drop(t, j));
      p := MatchFirst(s, t, j, q);
    }
  }

  lemma MatchFirst(s: seq<string>, t: seq<string>, j: nat, q: seq<nat>) returns (p: seq<nat>)
    requires s != [] && |s| == |t| && j < |t| && t[j] == s[0]
    requires Perm(q, |s| - 1) && forall i :: 0 <= i < |s| - 1 ==> s[1..][i] == Drop(t, j)[q[i]]
    ensures Perm(p, |s|) && forall i :: 0 <= i < |s| ==> s[i] == t[p[i]]
  {
    p := [j] + seq(|q|, i requires 0 <= i < |q| => Shift(q[i], j));
    forall i | 0 <= i < |s| ensures p[i] < |s| && s[i] == t[p[i]] && (i > 0 ==> p[i] == Shift(q[i - 1], j)) {
      if i > 0 {
        assert s[i] == s[1..][i - 1] == Drop(t, j)[q[i - 1]];
      }
    }
    forall i, k | 0 <= i < k < |s| ensures p[i] != p[k] {
      if i > 0 {
        assert q[i - 1] != q[k - 1];
      }
    }
  }

  /** Matched sequences have the same multiset. */
  lemma {:induction false} MatchedSame(s: seq<string>, t: seq<string>, p: seq<nat>)
    requires |s| == |t| && Perm(p, |s|) && forall i :: 0 <= i < |s| ==> s[i] == t[p[i]]
    ensures multiset(s) == multiset(t)
    decreases |s|
  {
    if s != [] {
      var j := p[0];
      var q := seq(|p| - 1, i requires 0 <= i < |p| - 1 => if p[i + 1] < j then p[i + 1] else p[i + 1] - 1);
      forall i | 0 <= i < |s| - 1 ensures q[i] < |s| - 1 && s[1..][i] == Drop(t, j)[q[i]] {
        assert p[i + 1] != p[0];
      }
      forall i, k | 0 <= i < k < |q| ensures q[i] != q[k] {
        assert p[i + 1] != p[k + 1] && p[0] != p[i + 1] && p[0] != p[k + 1];
      }
      MatchedSame(s[1..], Drop(t, j), q);
      DropMultiset(t, j);
      assert s == [s[0]] + s[1..];
    }
  }

  lemma {:induction false} DecimalInjective(a: nat, b: nat)
    requires Decimal(a) == Decimal(b)
    ensures a == b
    decreases a
  {
    var u, v := Decimal(a), Decimal(b);
    if a >= 10 && b >= 10 {
      assert u[..|u| - 1] == Decimal(a / 10) && v[..|v| - 1] == Decimal(b / 10);
      assert u[|u| - 1] == Digit(a % 10) && v[|v| - 1] == Digit(b % 10);
      DecimalInjective(a / 10, b / 10);
    } else if a >= 10 {
      DecimalFlat(a / 10);
    } else if b >= 10 {
      DecimalFlat(b / 10);
    }
  }

  /** The number that decimal digits stand for, the last digit least. */
  function Value(s: string): int {
    if s == "" then 0 else 10 * Value(s[..|s| - 1]) + (s[|s| - 1] as int - '0' as int)
  }

  /** The digits of a number stand for it, and have no zero in front. */
  lemma {:induction false} DecimalValue(n: nat)
    ensures Value(Decimal(n)) == n && |Decimal(n)| > 0 && (n > 0 ==> Decimal(n)[0] != '0')
    ensures forall i :: 0 <= i < |Decimal(n)| ==> '0' <= Decimal(n)[i] <= '9'
  {
    var s := Decimal(n);
    if n < 10 {
      assert s[..0] == "";
    } else {
      DecimalValue(n / 10);
      assert s[..|s| - 1] == Decimal(n / 10);
    }
  }

  lemma FileCodeInjective(k: nat, o: bool, l: nat, q: bool)
    requires FileCode(k, o) == FileCode(l, q)
    ensures k == l && o == q
  {
    var u, v := FileCode(k, o), FileCode(l, q);
    DecimalFlat(k);
    DecimalFlat(l);
    assert u[|u| - 2] == if o then '#' else Decimal(k)[|Decimal(k)| - 1];
    assert v[|v| - 2] == if q then '#' else Decimal(l)[|Decimal(l)| - 1];
    assert Decimal(k) == u[1..|u| - if o then 2 else 1];
    assert Decimal(l) == v[1..|v| - if q then 2 else 1];
    DecimalInjective(k, l);
  }

  lemma SortedCodes(kids: seq<Tree>)
    ensures AllBalanced(Codes(kids)) && AllPlain(Codes(kids))
    ensures AllBalanced(Sort(Codes(kids))) && Sorted(Sort(Codes(kids))) && AllPlain(Sort(Codes(kids)))
    ensures multiset(Sort(Codes(kids))) == multiset(Codes(kids))
  {
    forall i | 0 <= i < |kids| ensures Balanced(Codes(kids)[i]) {
      CodeBalanced(kids[i]);
    }
    SortBalanced(Codes(kids));
  }

  /** Two trees have the same code exactly when they are isomorphic. */
  lemma {:induction false} CodeIso(a: Tree, b: Tree)
    ensures Code(a) == Code(b) <==> Iso(a, b)
    decreases a
  {
    match (a, b)
    case (File(k, o), File(l, q)) =>
      if Code(a) == Code(b) {
        FileCodeInjective(k, o, l, q);
      }
    case (Dir(x), Dir(y)) =>
      SortedCodes(x);
      SortedCodes(y);
      if Code(a) == Code(b) {
        assert Code(a)[1..|Code(a)| - 1] == Flat(Sort(Codes(x))) && Code(b)[1..|Code(b)| - 1] == Flat(Sort(Codes(y)));
        FlatUnique(Sort(Codes(x)), Sort(Codes(y)));
        var p := MatchUp(Codes(x), Codes(y));
        forall i | 0 <= i < |x| ensures Iso(x[i], y[p[i]]) {
          assert Codes(x)[i] == Code(x[i]) && Codes(y)[p[i]] == Code(y[p[i]]);
          CodeIso(x[i], y[p[i]]);
        }
      }
      if Iso(a, b) {
        var p: seq<nat> :| Perm(p, |x|) && forall i :: 0 <= i < |x| ==> Iso(x[i], y[p[i]]);
        forall i | 0 <= i < |x| ensures Codes(x)[i] == Codes(y)[p[i]] {
          CodeIso(x[i], y[p[i]]);
        }
        MatchedSame(Codes(x), Codes(y), p);
        SortedUnique(Sort(Codes(x)), Sort(Codes(y)));
      }
    case (File(_, _), Dir(_)) => assert Code(a)[0] != Code(b)[0];
    case (Dir(_), File(_, _)) => assert Code(a)[0] != Code(b)[0];
  }
}
