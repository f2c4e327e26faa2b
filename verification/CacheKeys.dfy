/** The key printer: which parameters two equal keys have in common. */
module CacheKeys {

  /** A keyword argument: skipped when falsy, printed otherwise. */
  datatype Arg = Falsy | Truthy(text: string)
  type Kwargs = map<string, Arg>

  /** Python's order on strings. */
  predicate Less(a: string, b: string) {
    b != [] && (a == [] || a[0] < b[0] || (a[0] == b[0] && Less(a[1..], b[1..])))
  }

  lemma {:induction false} LessOrder(a: string, b: string)
    ensures Less(a, b) || a == b || Less(b, a)
    ensures !(Less(a, b) && Less(b, a)) && (a == b ==> !Less(a, b))
  {
    if a != [] && b != [] && a[0] == b[0] {
      LessOrder(a[1..], b[1..]);
      assert a == [a[0]] + a[1..] && b == [b[0]] + b[1..];
    }
  }

  lemma {:induction false} LessTransitive(a: string, b: string, c: string)
    requires Less(a, b) && Less(b, c)
    ensures Less(a, c)
  {
    if a != [] && a[0] == b[0] == c[0] {
      LessTransitive(a[1..], b[1..], c[1..]);
    }
  }

  ghost predicate IsLeast(k: string, names: set<string>) {
    k in names && forall j :: j in names ==> j == k || Less(k, j)
  }

  lemma {:induction false} LeastExists(names: set<string>)
    requires names != {}
    ensures exists k :: IsLeast(k, names)
  {
    var x :| x in names;
    var rest := names - {x};
    assert names == rest + {x};
    if rest == {} {
      assert IsLeast(x, names);
    } else {
      LeastExists(rest);
      var k :| IsLeast(k, rest);
      LessOrder(k, x);
      if Less(k, x) {
        assert IsLeast(k, names);
      } else {
        forall j | j in names && j != x ensures Less(x, j) {
          if j != k {
            LessTransitive(x, k, j);
          }
        }
        assert IsLeast(x, names);
      }
    }
  }

  /** `sorted(kwargs)`. */
  ghost function Sorted(names: set<string>): seq<string>
    decreases |names|
  {
    if names == {} then []
    else
      LeastExists(names);
      var k :| IsLeast(k, names);
      [k] + Sorted(names - {k})
  }

  /** The (name, text) pairs the generator expression yields, in order. */
  function Pairs(kwargs: Kwargs, names: seq<string>): seq<(string, string)> {
    if names == [] then []
    else (if names[0] in kwargs && kwargs[names[0]].Truthy? then [(names[0], kwargs[names[0]].text)] else []) + Pairs(kwargs, names[1..])
  }

  function Part(pair: (string, string)): string {
    pair.0 + "=" + pair.1
  }

  /** `"|".join(...)`. */
  function Join(pairs: seq<(string, string)>): string {
    if pairs == [] then ""
    else if |pairs| == 1 then Part(pairs[0])
    else Part(pairs[0]) + "|" + Join(pairs[1..])
  }

  /** The pairs a call prints. */
  ghost function Printed(kwargs: Kwargs): seq<(string, string)> {
    Pairs(kwargs, Sorted(kwargs.Keys))
  }

  ghost function MakeKey(prefix: string, kwargs: Kwargs): string {
    var body := Join(Printed(kwargs));
    if prefix != "" then prefix + ":" + body else body
  }

  /** The parameters that count. */
  function Given(kwargs: Kwargs): map<string, string> {
    map k | k in kwargs && kwargs[k].Truthy? :: kwargs[k].text
  }

  /** A string is cut at the first separator in one way only. */
  lemma {:induction false} CutOnce(x: string, r: string, y: string, t: string, c: char)
    requires c !in x && c !in y && x + [c] + r == y + [c] + t
    ensures x == y && r == t
  {
    var s := x + [c] + r;
    assert s[|x|] == c && s[|y|] == c;
    assert forall i :: 0 <= i < |x| ==> s[i] == x[i];
    assert forall i :: 0 <= i < |y| ==> s[i] == y[i];
    assert |x| == |y|;
    assert x == s[..|x|] && y == s[..|y|];
    assert r == s[|x| + 1..] && t == s[|y| + 1..];
  }

  ghost predicate Increasing(pairs: seq<(string, string)>) {
    forall i, j :: 0 <= i < j < |pairs| ==> Less(pairs[i].0, pairs[j].0)
  }

  lemma {:induction false} SortedSpec(names: set<string>)
    ensures forall k :: k in Sorted(names) ==> k in names
    ensures forall k :: k in names ==> k in Sorted(names)
    ensures forall i, j :: 0 <= i < j < |Sorted(names)| ==> Less(Sorted(names)[i], Sorted(names)[j])
    decreases |names|
  {
    if names != {} {
      var k := Sorted(names)[0];
      assert IsLeast(k, names);
      SortedSpec(names - {k});
      var rest := Sorted(names - {k});
      assert Sorted(names) == [k] + rest;
      forall j | 0 <= j < |rest| ensures Less(k, rest[j]) {
        assert rest[j] in rest;
      }
    }
  }

  lemma {:induction false} PairsMembers(kwargs: Kwargs, names: seq<string>)
    ensures forall p :: p in Pairs(kwargs, names) ==> p.0 in names && p.0 in kwargs && kwargs[p.0] == Truthy(p.1)
    ensures forall k :: k in names && k in kwargs && kwargs[k].Truthy? ==> (k, kwargs[k].text) in Pairs(kwargs, names)
  {
    if names != [] {
      PairsMembers(kwargs, names[1..]);
      assert names == [names[0]] + names[1..];
    }
  }

  lemma {:induction false} PairsIncreasing(kwargs: Kwargs, names: seq<string>)
    requires forall i, j :: 0 <= i < j < |names| ==> Less(names[i], names[j])
    ensures Increasing(Pairs(kwargs, names))
  {
    if names != [] {
      PairsIncreasing(kwargs, names[1..]);
      PairsMembers(kwargs, names[1..]);
      var rest := Pairs(kwargs, names[1..]);
      forall i | 0 <= i < |rest| ensures Less(names[0], rest[i].0) {
        assert rest[i] in rest;
        var j :| 0 <= j < |names[1..]| && names[1..][j] == rest[i].0;
        assert names[j + 1] == rest[i].0;
      }
    }
  }

  /** An increasing list is fixed by its elements. */
  lemma {:induction false} IncreasingUnique(p: seq<(string, string)>, q: seq<(string, string)>)
    requires Increasing(p) && Increasing(q)
    requires forall x :: x in p ==> x in q
    requires forall x :: x in q ==> x in p
    ensures p == q
  {
    assert q != [] ==> q[0] in q;
    if p != [] {
      assert p[0] in q;
      assert q[0] in p;
      var i :| 0 <= i < |q| && q[i] == p[0];
      var j :| 0 <= j < |p| && p[j] == q[0];
      if i > 0 && j > 0 {
        LessOrder(p[0].0, q[0].0);
      }
      LessOrder(p[0].0, p[0].0);
      forall x | x in p[1..] ensures x in q[1..] {
        var m :| 0 <= m < |p[1..]| && p[1..][m] == x;
        assert Less(p[0].0, p[m + 1].0);
        assert x in p;
        assert q == [q[0]] + q[1..];
      }
      forall x | x in q[1..] ensures x in p[1..] {
        var m :| 0 <= m < |q[1..]| && q[1..][m] == x;
        assert Less(q[0].0, q[m + 1].0);
        assert x in q;
        assert p == [p[0]] + p[1..];
      }
      IncreasingUnique(p[1..], q[1..]);
      assert p == [p[0]] + p[1..] && q == [q[0]] + q[1..];
    }
  }

  lemma PairsOf(kwargs: Kwargs)
    ensures Increasing(Printed(kwargs))
    ensures forall p :: p in Printed(kwargs) ==> p.0 in Given(kwargs) && Given(kwargs)[p.0] == p.1
    ensures forall k :: k in Given(kwargs) ==> (k, Given(kwargs)[k]) in Printed(kwargs)
  {
    SortedSpec(kwargs.Keys);
    PairsMembers(kwargs, Sorted(kwargs.Keys));
    PairsIncreasing(kwargs, Sorted(kwargs.Keys));
  }

  /** An increasing list of exactly the given pairs is what the call prints. */
  lemma PairsAre(kwargs: Kwargs, p: seq<(string, string)>)
    requires Increasing(p)
    requires forall x :: x in p ==> x.0 in Given(kwargs) && Given(kwargs)[x.0] == x.1
    requires forall k :: k in Given(kwargs) ==> (k, Given(kwargs)[k]) in p
    ensures Printed(kwargs) == p
  {
    PairsOf(kwargs);
    var q := Printed(kwargs);
    forall x | x in p ensures x in q {
      assert (x.0, Given(kwargs)[x.0]) in q;
    }
    forall x | x in q ensures x in p {
      assert (x.0, Given(kwargs)[x.0]) in p;
    }
    IncreasingUnique(q, p);
  }

  lemma SamePairs(a: Kwargs, b: Kwargs)
    ensures Given(a) == Given(b) <==> Printed(a) == Printed(b)
  {
    PairsOf(a);
    PairsOf(b);
    if Given(a) == Given(b) {
      PairsAre(a, Printed(b));
    }
    if Printed(a) == Printed(b) {
      forall k | k in Given(a) ensures k in Given(b) && Given(b)[k] == Given(a)[k] {
        assert (k, Given(a)[k]) in Printed(b);
      }
      forall k | k in Given(b) ensures k in Given(a) {
        assert (k, Given(b)[k]) in Printed(a);
      }
    }
  }

  /** A prefix leads the key, and the rest is the key without it; a falsy parameter is as good as none. */
  lemma KeyMeaning(prefix: string, kwargs: Kwargs, k: string)
    requires k !in kwargs
    ensures prefix != "" ==> MakeKey(prefix, kwargs) == prefix + ":" + MakeKey("", kwargs)
    ensures MakeKey(prefix, kwargs[k := Falsy]) == MakeKey(prefix, kwargs)
  {
    assert Given(kwargs[k := Falsy]) == Given(kwargs);
    SamePairs(kwargs[k := Falsy], kwargs);
  }

  lemma SameKey(prefix: string, a: Kwargs, b: Kwargs)
    ensures MakeKey(prefix, a) == MakeKey(prefix, b) <==> Join(Printed(a)) == Join(Printed(b))
  {
    var n := if prefix != "" then |prefix| + 1 else 0;
    assert Join(Printed(a)) == MakeKey(prefix, a)[n..];
    assert Join(Printed(b)) == MakeKey(prefix, b)[n..];
  }

  function AsCall(p: seq<(string, string)>): Kwargs {
    if p == [] then map[] else AsCall(p[..|p| - 1])[p[|p| - 1].0 := Truthy(p[|p| - 1].1)]
  }

  lemma {:induction false} AsCallKeys(p: seq<(string, string)>)
    ensures forall k :: k in AsCall(p) ==> AsCall(p)[k].Truthy? && (k, AsCall(p)[k].text) in p
  {
    if p != [] {
      var n := |p| - 1;
      AsCallKeys(p[..n]);
      assert p == p[..n] + [p[n]];
      assert p[n] == (p[n].0, p[n].1);
    }
  }

  lemma {:induction false} AsCallPairs(p: seq<(string, string)>, i: nat)
    requires Increasing(p) && i < |p|
    ensures p[i].0 in AsCall(p) && AsCall(p)[p[i].0] == Truthy(p[i].1)
  {
    var n := |p| - 1;
    if i < n {
      AsCallPairs(p[..n], i);
      assert Less(p[i].0, p[n].0);
      LessOrder(p[n].0, p[n].0);
    }
  }

  /** Every increasing list is printed by a call. */
  lemma CallPrints(p: seq<(string, string)>)
    requires Increasing(p)
    ensures Printed(AsCall(p)) == p
  {
    AsCallKeys(p);
    forall x | x in p ensures x.0 in Given(AsCall(p)) && Given(AsCall(p))[x.0] == x.1 {
      var i :| 0 <= i < |p| && p[i] == x;
      AsCallPairs(p, i);
    }
    PairsAre(AsCall(p), p);
  }

  // ---- texts that read as several parameters ----

  /** What follows the first value of a printed list. */
  function Tail(rest: seq<(string, string)>): string {
    if rest == [] then "" else "|" + Join(rest)
  }

  lemma JoinMore(pair: (string, string), rest: seq<(string, string)>)
    ensures Join([pair] + rest) == pair.0 + "=" + (pair.1 + Tail(rest))
  {
    assert ([pair] + rest)[1..] == rest;
  }

  lemma JoinFirst(p: seq<(string, string)>)
    requires p != []
    ensures Join(p) == p[0].0 + "=" + (p[0].1 + Tail(p[1..]))
  {
    assert p == [p[0]] + p[1..];
    JoinMore(p[0], p[1..]);
  }

  function Parted(x: string, l: string, y: string): string {
    x + "|" + l + "=" + y
  }

  ghost predicate PartAt(
    names: set<string>, least: nat, k: string, v: string, last: bool, x: string, l: string, y: string)
  {
    l in names && Less(k, l) && v == Parted(x, l, y) && least <= |x| && (last ==> least <= |y|)
  }

  /** A value of `k` that prints like a value of `k` and a later parameter. `least` is the shortest text of a
      truthy value: 1 for strings and numbers, 0 for objects that may print as nothing. */
  ghost predicate HoldsPart(names: set<string>, least: nat, k: string, v: string, last: bool) {
    exists x, l, y :: PartAt(names, least, k, v, last, x, l, y)
  }

  ghost predicate Separable(names: set<string>) {
    forall n :: n in names ==> '|' !in n && '=' !in n
  }

  /** A call over `names`. */
  ghost predicate Over(names: set<string>, least: nat, given: map<string, string>) {
    forall k :: k in given ==> k in names && least <= |given[k]|
  }

  ghost predicate IsLast(given: map<string, string>, k: string) {
    forall j :: j in given ==> !Less(k, j)
  }

  /** No value holds a part. */
  ghost predicate Plain(names: set<string>, least: nat, given: map<string, string>) {
    Over(names, least, given) && forall k :: k in given ==> !HoldsPart(names, least, k, given[k], IsLast(given, k))
  }

  ghost predicate PlainPair(names: set<string>, least: nat, p: seq<(string, string)>, i: nat)
    requires i < |p|
  {
    p[i].0 in names && least <= |p[i].1| && !HoldsPart(names, least, p[i].0, p[i].1, i == |p| - 1)
  }

  ghost predicate PlainList(names: set<string>, least: nat, p: seq<(string, string)>) {
    Increasing(p) && forall i :: 0 <= i < |p| ==> PlainPair(names, least, p, i)
  }

  lemma LastPrinted(kwargs: Kwargs, i: nat)
    requires i < |Printed(kwargs)|
    ensures IsLast(Given(kwargs), Printed(kwargs)[i].0) <==> i == |Printed(kwargs)| - 1
  {
    PairsOf(kwargs);
    var p := Printed(kwargs);
    if i < |p| - 1 {
      assert p[i + 1] in p && Less(p[i].0, p[i + 1].0);
    } else {
      forall k | k in Given(kwargs) ensures !Less(p[i].0, k) {
        var j :| 0 <= j < |p| && p[j] == (k, Given(kwargs)[k]);
        LessOrder(p[i].0, k);
      }
    }
  }

  lemma PlainPrinted(names: set<string>, least: nat, kwargs: Kwargs)
    ensures Plain(names, least, Given(kwargs)) <==> PlainList(names, least, Printed(kwargs))
  {
    PairsOf(kwargs);
    var p, given := Printed(kwargs), Given(kwargs);
    forall i | 0 <= i < |p|
      ensures p[i].0 in given && given[p[i].0] == p[i].1 && (IsLast(given, p[i].0) <==> i == |p| - 1)
    {
      assert p[i] in p;
      LastPrinted(kwargs, i);
    }
    if PlainList(names, least, p) {
      forall k | k in given ensures k in names && least <= |given[k]| && !HoldsPart(names, least, k, given[k], IsLast(given, k)) {
        var i :| 0 <= i < |p| && p[i] == (k, given[k]);
        assert PlainPair(names, least, p, i);
      }
    }
  }

  lemma PlainRest(names: set<string>, least: nat, p: seq<(string, string)>)
    requires p != [] && PlainList(names, least, p)
    ensures PlainList(names, least, p[1..])
  {
    forall i | 0 <= i < |p| - 1 ensures PlainPair(names, least, p[1..], i) {
      assert PlainPair(names, least, p, i + 1);
    }
  }

  // ---- plain calls have different keys ----

  /** A value that reaches past `x|` takes in the whole name behind it. */
  lemma TakesName(x: string, l: string, u: string, v: string, tail: string)
    requires Parted(x, l, u) == v + tail && |v| > |x| && '|' !in l && (tail == "" || tail[0] == '|')
    ensures |v| >= |x| + |l| + 2
    ensures v == Parted(x, l, v[|x| + |l| + 2..]) && (tail == "" ==> v[|x| + |l| + 2..] == u)
  {
    var t := Parted(x, l, u);
    var n := |x| + |l| + 2;
    forall i | |x| < i < n ensures t[i] != '|' {
      assert t[i] == if i < n - 1 then l[i - |x| - 1] else '=';
    }
    assert tail != "" ==> t[|v|] == '|';
    assert t[..n] == x + "|" + l + "=" && v[..n] == t[..n];
    assert v == v[..n] + v[n..];
    assert t[n..] == u;
  }

  lemma TailParted(x: string, p: seq<(string, string)>)
    requires p != []
    ensures x + Tail(p) == Parted(x, p[0].0, p[0].1 + Tail(p[1..]))
  {
    JoinFirst(p);
    Regroup(x, p[0].0, p[0].1 + Tail(p[1..]));
  }

  lemma Regroup(x: string, l: string, u: string)
    ensures x + ("|" + (l + "=" + u)) == Parted(x, l, u)
  {
  }

  lemma LongerHolds(names: set<string>, least: nat, p: seq<(string, string)>, q: seq<(string, string)>)
    requires Separable(names) && PlainList(names, least, p) && p != [] && q != [] && p[0].0 == q[0].0
    requires p[0].1 + Tail(p[1..]) == q[0].1 + Tail(q[1..]) && |p[0].1| < |q[0].1|
    ensures HoldsPart(names, least, q[0].0, q[0].1, |q| == 1)
  {
    var x, v := p[0].1, q[0].1;
    assert PlainPair(names, least, p, 0);
    assert p[1..] != [];
    assert PlainPair(names, least, p, 1);
    var l, u := p[1].0, p[1].1 + Tail(p[1..][1..]);
    TailParted(x, p[1..]);
    TakesName(x, l, u, v, Tail(q[1..]));
    assert PartAt(names, least, q[0].0, v, |q| == 1, x, l, v[|x| + |l| + 2..]);
  }

  lemma SameFirstName(p: seq<(string, string)>, q: seq<(string, string)>)
    requires p != [] && q != [] && '=' !in p[0].0 && '=' !in q[0].0 && Join(p) == Join(q)
    ensures p[0].0 == q[0].0 && p[0].1 + Tail(p[1..]) == q[0].1 + Tail(q[1..])
  {
    JoinFirst(p);
    JoinFirst(q);
    CutOnce(p[0].0, p[0].1 + Tail(p[1..]), q[0].0, q[0].1 + Tail(q[1..]), '=');
  }

  lemma SameTail(v: string, p: seq<(string, string)>, q: seq<(string, string)>)
    requires v + Tail(p) == v + Tail(q)
    ensures Join(p) == Join(q) && (p == [] <==> q == [])
  {
    assert (v + Tail(p))[|v|..] == Tail(p) && (v + Tail(q))[|v|..] == Tail(q);
    assert p != [] ==> Tail(p)[1..] == Join(p);
    assert q != [] ==> Tail(q)[1..] == Join(q);
  }

  lemma JoinEmpty(p: seq<(string, string)>)
    ensures Join(p) == "" <==> p == []
  {
    if p != [] {
      JoinFirst(p);
    }
  }

  lemma SameFirst(names: set<string>, least: nat, p: seq<(string, string)>, q: seq<(string, string)>)
    requires Separable(names) && PlainList(names, least, p) && PlainList(names, least, q) && Join(p) == Join(q)
    requires p != [] && q != []
    ensures p[0] == q[0] && Join(p[1..]) == Join(q[1..])
  {
    assert PlainPair(names, least, p, 0) && PlainPair(names, least, q, 0);
    SameFirstName(p, q);
    SameLength(names, least, p, q);
    SameFront(p[0].1, Tail(p[1..]), q[0].1, Tail(q[1..]));
    SameTail(p[0].1, p[1..], q[1..]);
  }

  lemma SameFront(v: string, t: string, w: string, u: string)
    requires v + t == w + u && |v| == |w|
    ensures v == w && t == u
  {
    assert v == (v + t)[..|v|] && w == (w + u)[..|v|];
    assert t == (v + t)[|v|..] && u == (w + u)[|v|..];
  }

  lemma {:induction false} PlainSame(names: set<string>, least: nat, p: seq<(string, string)>, q: seq<(string, string)>)
    requires Separable(names) && PlainList(names, least, p) && PlainList(names, least, q) && Join(p) == Join(q)
    ensures p == q
    decreases |p|
  {
    JoinEmpty(p);
    JoinEmpty(q);
    if p != [] {
      SameFirst(names, least, p, q);
      PlainRest(names, least, p);
      PlainRest(names, least, q);
      PlainSame(names, least, p[1..], q[1..]);
      assert p == [p[0]] + p[1..] && q == [q[0]] + q[1..];
    }
  }

  lemma SameLength(names: set<string>, least: nat, p: seq<(string, string)>, q: seq<(string, string)>)
    requires Separable(names) && PlainList(names, least, p) && PlainList(names, least, q)
    requires p != [] && q != [] && p[0].0 == q[0].0 && p[0].1 + Tail(p[1..]) == q[0].1 + Tail(q[1..])
    ensures |p[0].1| == |q[0].1|
  {
    assert PlainPair(names, least, p, 0) && PlainPair(names, least, q, 0);
    if |p[0].1| < |q[0].1| {
      LongerHolds(names, least, p, q);
    }
    if |q[0].1| < |p[0].1| {
      LongerHolds(names, least, q, p);
    }
  }

  /** Two plain calls make the same key exactly when they agree on every parameter that counts. */
  lemma PlainKeysExactly(names: set<string>, least: nat, prefix: string, a: Kwargs, b: Kwargs)
    requires Separable(names) && Plain(names, least, Given(a)) && Plain(names, least, Given(b))
    ensures MakeKey(prefix, a) == MakeKey(prefix, b) <==> Given(a) == Given(b)
  {
    PlainPrinted(names, least, a);
    PlainPrinted(names, least, b);
    SameKey(prefix, a, b);
    SamePairs(a, b);
    if Join(Printed(a)) == Join(Printed(b)) {
      PlainSame(names, least, Printed(a), Printed(b));
    }
  }

  /** No separator inside a name, no `|` inside a value. */
  ghost predicate Printable(kwargs: Kwargs) {
    forall k :: k in kwargs ==> '|' !in k && '=' !in k && (kwargs[k].Truthy? ==> '|' !in kwargs[k].text)
  }

  lemma PrintableIsPlain(names: set<string>, kwargs: Kwargs)
    requires Printable(kwargs) && kwargs.Keys <= names
    ensures Plain(names, 0, Given(kwargs))
  {
    forall k | k in Given(kwargs) ensures !HoldsPart(names, 0, k, Given(kwargs)[k], IsLast(Given(kwargs), k)) {
      forall x: string, l, y ensures Given(kwargs)[k] != Parted(x, l, y) {
        assert Parted(x, l, y)[|x|] == '|';
      }
    }
  }

  /** In particular without any bar in a value. */
  lemma KeyInjective(prefix: string, a: Kwargs, b: Kwargs)
    requires Printable(a) && Printable(b)
    ensures MakeKey(prefix, a) == MakeKey(prefix, b) <==> Given(a) == Given(b)
  {
    var names := a.Keys + b.Keys;
    PrintableIsPlain(names, a);
    PrintableIsPlain(names, b);
    PlainKeysExactly(names, 0, prefix, a, b);
  }

  // ---- every other call collides with a plain one ----

  lemma {:induction false} ShortestPart(names: set<string>, least: nat, k: string, v: string, x: string, l: string, y: string)
    returns (x': string, l': string, y': string)
    requires PartAt(names, least, k, v, true, x, l, y)
    ensures PartAt(names, least, k, v, true, x', l', y')
    ensures forall s, m, z :: PartAt(names, least, k, v, true, s, m, z) ==> |x'| <= |s|
    decreases |x|
  {
    if s, m, z :| PartAt(names, least, k, v, true, s, m, z) && |s| < |x| {
      x', l', y' := ShortestPart(names, least, k, v, s, m, z);
    } else {
      x', l', y' := x, l, y;
    }
  }

  /** Cut off at its first part, a value holds none. */
  lemma ShortestIsPlain(names: set<string>, least: nat, k: string, v: string, x: string, l: string, y: string)
    requires PartAt(names, least, k, v, true, x, l, y)
    requires forall s, m, z :: PartAt(names, least, k, v, true, s, m, z) ==> |x| <= |s|
    ensures !HoldsPart(names, least, k, x, false)
  {
    forall s, m, z ensures !PartAt(names, least, k, x, false, s, m, z) {
      var rest := z + "|" + l + "=" + y;
      if PartAt(names, least, k, x, false, s, m, z) {
        assert Parted(Parted(s, m, z), l, y) == Parted(s, m, rest);
        assert PartAt(names, least, k, v, true, s, m, rest);
        assert false;
      }
    }
  }

  lemma PlainMore(names: set<string>, least: nat, k: string, x: string, rest: seq<(string, string)>)
    requires PlainList(names, least, rest) && rest != [] && Less(k, rest[0].0)
    requires k in names && least <= |x| && !HoldsPart(names, least, k, x, false)
    ensures PlainList(names, least, [(k, x)] + rest)
  {
    var p := [(k, x)] + rest;
    forall i | 0 < i < |p| ensures Less(k, p[i].0) && PlainPair(names, least, p, i) {
      assert PlainPair(names, least, rest, i - 1);
      if i > 1 {
        LessTransitive(k, rest[0].0, rest[i - 1].0);
      }
    }
  }

  /** The plain list that prints as the value `v` of `k`. */
  lemma {:induction false} PlainListOf(names: set<string>, least: nat, k: string, v: string) returns (p: seq<(string, string)>)
    requires k in names && least <= |v|
    ensures PlainList(names, least, p) && p != [] && p[0].0 == k && Join(p) == k + "=" + v
    decreases |v|
  {
    if HoldsPart(names, least, k, v, true) {
      var x, l, y :| PartAt(names, least, k, v, true, x, l, y);
      x, l, y := ShortestPart(names, least, k, v, x, l, y);
      ShortestIsPlain(names, least, k, v, x, l, y);
      var rest := PlainListOf(names, least, l, y);
      PlainMore(names, least, k, x, rest);
      JoinMore((k, x), rest);
      p := [(k, x)] + rest;
      Regroup(x, l, y);
    } else {
      p := [(k, v)];
      JoinMore((k, v), []);
      assert [(k, v)] + [] == p && v + "" == v;
    }
  }

  lemma OverPrinted(names: set<string>, least: nat, kwargs: Kwargs)
    ensures Over(names, least, Given(kwargs)) <==>
            forall i :: 0 <= i < |Printed(kwargs)| ==> Printed(kwargs)[i].0 in names && least <= |Printed(kwargs)[i].1|
  {
    PairsOf(kwargs);
    var p, given := Printed(kwargs), Given(kwargs);
    assert forall i :: 0 <= i < |p| ==> p[i] in p;
    if forall i :: 0 <= i < |p| ==> p[i].0 in names && least <= |p[i].1| {
      forall k | k in given ensures k in names && least <= |given[k]| {
        var i :| 0 <= i < |p| && p[i] == (k, given[k]);
      }
    }
  }

  /** Every call has the key of a plain call over the same names, and it is the same call only if it is plain. */
  lemma PlainForm(names: set<string>, least: nat, prefix: string, a: Kwargs) returns (b: Kwargs)
    requires Over(names, least, Given(a))
    ensures Plain(names, least, Given(b)) && MakeKey(prefix, a) == MakeKey(prefix, b)
    ensures Given(a) == Given(b) <==> Plain(names, least, Given(a))
  {
    var p := Printed(a);
    PlainPrinted(names, least, a);
    if PlainList(names, least, p) {
      b := a;
    } else {
      OverPrinted(names, least, a);
      PairsOf(a);
      var v := p[0].1 + Tail(p[1..]);
      var q := PlainListOf(names, least, p[0].0, v);
      JoinFirst(p);
      b := AsCall(q);
      CallPrints(q);
      PlainPrinted(names, least, b);
      SameKey(prefix, a, b);
    }
  }

  /** No other call over `names` has this call's key. */
  ghost predicate Alone(names: set<string>, least: nat, prefix: string, a: Kwargs) {
    forall b: Kwargs :: Over(names, least, Given(b)) && MakeKey(prefix, b) == MakeKey(prefix, a) ==> Given(b) == Given(a)
  }

  /** The first value can take in all that follows. */
  lemma Absorbed(names: set<string>, least: nat, prefix: string, a: Kwargs) returns (b: Kwargs)
    requires Over(names, least, Given(a)) && |Printed(a)| >= 2
    ensures Over(names, least, Given(b)) && MakeKey(prefix, b) == MakeKey(prefix, a) && Given(b) != Given(a)
  {
    var p := Printed(a);
    OverPrinted(names, least, a);
    var q := [(p[0].0, p[0].1 + Tail(p[1..]))];
    JoinFirst(p);
    JoinFirst(q);
    b := AsCall(q);
    CallPrints(q);
    OverPrinted(names, least, b);
    SameKey(prefix, a, b);
    SamePairs(a, b);
  }

  lemma OnePlainAlone(names: set<string>, least: nat, p: seq<(string, string)>, q: seq<(string, string)>)
    requires Separable(names) && PlainList(names, least, p) && |p| <= 1 && Join(p) == Join(q)
    requires forall i :: 0 <= i < |q| ==> q[i].0 in names && least <= |q[i].1|
    requires Increasing(q)
    ensures p == q
  {
    JoinEmpty(p);
    JoinEmpty(q);
    if p != [] {
      assert PlainPair(names, least, p, 0);
      SameFirstName(p, q);
      var k, v := p[0].0, p[0].1;
      assert v + Tail(p[1..]) == v;
      if |q| > 1 {
        TailParted(q[0].1, q[1..]);
        var u := q[1].1 + Tail(q[1..][1..]);
        assert PartAt(names, least, k, v, true, q[0].1, q[1].0, u);
        assert false;
      }
      assert q[0].1 + Tail(q[1..]) == q[0].1;
    }
  }

  /** A call shares its key with no other exactly when it is plain and gives at most one parameter. */
  lemma AloneExactly(names: set<string>, least: nat, prefix: string, a: Kwargs)
    requires Separable(names) && Over(names, least, Given(a))
    ensures Alone(names, least, prefix, a) <==> Plain(names, least, Given(a)) && |Printed(a)| <= 1
  {
    PlainPrinted(names, least, a);
    if |Printed(a)| >= 2 {
      var b := Absorbed(names, least, prefix, a);
    } else if !Plain(names, least, Given(a)) {
      var b := PlainForm(names, least, prefix, a);
      assert Over(names, least, Given(b));
    } else {
      forall b: Kwargs | Over(names, least, Given(b)) && MakeKey(prefix, b) == MakeKey(prefix, a)
        ensures Given(b) == Given(a)
      {
        SameKey(prefix, a, b);
        SamePairs(a, b);
        PairsOf(b);
        OverPrinted(names, least, b);
        OnePlainAlone(names, least, Printed(a), Printed(b));
      }
    }
  }

  // ---- the product list of the API ----

  lemma {:induction false} JoinFront(front: seq<(string, string)>, p: seq<(string, string)>, q: seq<(string, string)>)
    requires p != [] && q != [] && Join(p) == Join(q)
    ensures Join(front + p) == Join(front + q)
  {
    if front == [] {
      assert front + p == p && front + q == q;
    } else {
      JoinFront(front[1..], p, q);
      assert (front + p)[1..] == front[1..] + p && (front + q)[1..] == front[1..] + q;
    }
  }

  lemma JoinTwo(first: (string, string), second: (string, string), back: seq<(string, string)>)
    ensures Join([first, second] + back) ==
            first.0 + "=" + Parted(first.1, second.0, second.1 + Tail(back))
  {
    var rest := [second] + back;
    assert [first, second] + back == [first] + rest;
    JoinMore(first, rest);
    TailParted(first.1, rest);
    assert rest[1..] == back;
  }

  /** One value that holds a part prints as two pairs. */
  lemma PrintsTwo(k: string, x: string, l: string, y: string, back: seq<(string, string)>)
    ensures Join([(k, Parted(x, l, y))] + back) == Join([(k, x), (l, y)] + back)
  {
    JoinMore((k, Parted(x, l, y)), back);
    PartedMore(x, l, y, Tail(back));
    JoinTwo((k, x), (l, y), back);
  }

  lemma PartedMore(x: string, l: string, y: string, t: string)
    ensures Parted(x, l, y) + t == Parted(x, l, y + t)
  {
  }

  function SplitAt(p: seq<(string, string)>, i: nat, k: string, x: string, l: string, y: string): seq<(string, string)>
    requires i < |p|
  {
    p[..i] + [(k, x), (l, y)] + p[i + 1..]
  }

  lemma JoinSwap(
    front: seq<(string, string)>, one: seq<(string, string)>, two: seq<(string, string)>, back: seq<(string, string)>)
    requires one != [] && two != [] && Join(one + back) == Join(two + back)
    ensures Join(front + one + back) == Join(front + two + back)
  {
    JoinFront(front, one + back, two + back);
    assert front + one + back == front + (one + back) && front + two + back == front + (two + back);
  }

  lemma Regather(p: seq<(string, string)>, i: nat)
    requires i < |p|
    ensures p == p[..i] + [p[i]] + p[i + 1..]
  {
  }

  lemma SplitPrints(p: seq<(string, string)>, i: nat, k: string, x: string, l: string, y: string)
    requires i < |p| && p[i] == (k, Parted(x, l, y))
    ensures Join(SplitAt(p, i, k, x, l, y)) == Join(p)
  {
    PrintsTwo(k, x, l, y, p[i + 1..]);
    JoinSwap(p[..i], [p[i]], [(k, x), (l, y)], p[i + 1..]);
    Regather(p, i);
  }

  lemma SplitIncreasing(p: seq<(string, string)>, i: nat, k: string, x: string, l: string, y: string)
    requires i < |p| && p[i].0 == k && Increasing(p) && Less(k, l)
    requires forall j :: i < j < |p| ==> Less(l, p[j].0)
    ensures Increasing(SplitAt(p, i, k, x, l, y))
  {
    var q := SplitAt(p, i, k, x, l, y);
    forall a, b | 0 <= a < b < |q| ensures Less(q[a].0, q[b].0) {
      if a < i && b == i + 1 {
        LessTransitive(p[a].0, k, l);
      }
      assert b < i ==> Less(p[a].0, p[b].0);
      assert a <= i && b > i + 1 ==> Less(p[a].0, p[b - 1].0);
      assert i + 1 < a ==> Less(p[a - 1].0, p[b - 1].0);
    }
  }

  /** Splitting a value that holds a part keeps the key, where no given name stands between the two. */
  lemma SplitInPlace(prefix: string, a: Kwargs, b: Kwargs, k: string, x: string, l: string, y: string)
    requires k in Given(a) && Given(a)[k] == Parted(x, l, y) && Less(k, l)
    requires forall n :: n in Given(a) ==> n == k || Less(n, k) || Less(l, n)
    requires Given(b) == Given(a)[k := x][l := y]
    ensures MakeKey(prefix, a) == MakeKey(prefix, b)
  {
    PairsOf(a);
    var p, given := Printed(a), Given(a);
    var i :| 0 <= i < |p| && p[i] == (k, given[k]);
    forall j | 0 <= j < |p|
      ensures p[j].0 in given && given[p[j].0] == p[j].1 && (j != i ==> p[j].0 != k) && p[j].0 != l
      ensures i < j ==> Less(l, p[j].0)
    {
      assert p[j] in p;
      LessOrder(p[j].0, k);
      LessOrder(k, l);
      LessOrder(l, l);
    }
    SplitIncreasing(p, i, k, x, l, y);
    SplitPrints(p, i, k, x, l, y);
    SplitPairs(a, b, i, k, x, l, y);
    SameKey(prefix, a, b);
  }

  lemma SplitPairs(a: Kwargs, b: Kwargs, i: nat, k: string, x: string, l: string, y: string)
    requires i < |Printed(a)| && Printed(a)[i].0 == k && Increasing(SplitAt(Printed(a), i, k, x, l, y))
    requires forall j :: 0 <= j < |Printed(a)| ==> (j != i ==> Printed(a)[j].0 != k) && Printed(a)[j].0 != l
    requires Given(b) == Given(a)[k := x][l := y] && k != l
    ensures Printed(b) == SplitAt(Printed(a), i, k, x, l, y)
  {
    PairsOf(a);
    var q := SplitAt(Printed(a), i, k, x, l, y);
    forall z | z in q ensures z.0 in Given(b) && Given(b)[z.0] == z.1 {
      SplitHolds(Printed(a), i, k, x, l, y, z);
    }
    forall n | n in Given(b) ensures (n, Given(b)[n]) in q {
      if n != k && n != l {
        assert (n, Given(a)[n]) in Printed(a);
      }
      SplitKeeps(Printed(a), i, k, x, l, y, (n, Given(b)[n]));
    }
    PairsAre(b, q);
  }

  lemma SplitHolds(
    p: seq<(string, string)>, i: nat, k: string, x: string, l: string, y: string, z: (string, string))
    requires i < |p| && z in SplitAt(p, i, k, x, l, y)
    requires forall j :: 0 <= j < |p| ==> (j != i ==> p[j].0 != k) && p[j].0 != l
    ensures z == (k, x) || z == (l, y) || (z in p && z.0 != k && z.0 != l)
  {
    SplitAtIndex(p, i, k, x, l, y);
    var j :| 0 <= j < |p| + 1 && SplitAt(p, i, k, x, l, y)[j] == z;
  }

  lemma SplitKeeps(
    p: seq<(string, string)>, i: nat, k: string, x: string, l: string, y: string, z: (string, string))
    requires i < |p| && p[i].0 == k && (z == (k, x) || z == (l, y) || (z in p && z.0 != k))
    ensures z in SplitAt(p, i, k, x, l, y)
  {
    var q := SplitAt(p, i, k, x, l, y);
    SplitAtIndex(p, i, k, x, l, y);
    assert q[i] in q && q[i + 1] in q;
    if z in p && z.0 != k {
      var j :| 0 <= j < |p| && p[j] == z;
      assert q[if j < i then j else j + 1] == z;
    }
  }

  lemma SplitAtIndex(p: seq<(string, string)>, i: nat, k: string, x: string, l: string, y: string)
    requires i < |p|
    ensures var q := SplitAt(p, i, k, x, l, y);
            && |q| == |p| + 1 && q[i] == (k, x) && q[i + 1] == (l, y)
            && (forall j :: 0 <= j < i ==> q[j] == p[j])
            && (forall j :: i + 1 < j < |q| ==> q[j] == p[j - 1])
  {
  }

  const LIST_NAMES := {"category", "page", "per_page", "search", "stock_status", "warehouse"}

  lemma ListNamesSeparable()
    ensures Separable(LIST_NAMES)
  {
  }

  /** Two plain product lists share a cache entry exactly when they ask for the same. */
  lemma ListKeysExactly(a: Kwargs, b: Kwargs)
    requires Plain(LIST_NAMES, 1, Given(a)) && Plain(LIST_NAMES, 1, Given(b))
    ensures MakeKey("products", a) == MakeKey("products", b) <==> Given(a) == Given(b)
  {
    ListNamesSeparable();
    PlainKeysExactly(LIST_NAMES, 1, "products", a, b);
  }

  const SEARCH := "search"
  const STATUS := "stock_status"

  function OtherArgs(category: Arg, warehouse: Arg, page: Arg, perPage: Arg): Kwargs {
    map["category" := category, "warehouse" := warehouse, "page" := page, "per_page" := perPage]
  }

  /** The arguments of the product list of the API. */
  function ListArgs(search: Arg, category: Arg, warehouse: Arg, stockStatus: Arg, page: Arg, perPage: Arg): Kwargs {
    OtherArgs(category, warehouse, page, perPage)[SEARCH := search][STATUS := stockStatus]
  }

  lemma GivenUpdate(kwargs: Kwargs, k: string, arg: Arg)
    requires k !in kwargs
    ensures Given(kwargs[k := arg]) == if arg.Truthy? then Given(kwargs)[k := arg.text] else Given(kwargs)
  {
  }

  /** A search text can print as a search and a stock status: both calls then read one cache entry. */
  lemma SearchCollides(x: string, y: string, category: Arg, warehouse: Arg, page: Arg, perPage: Arg)
    ensures var a := ListArgs(Truthy(Parted(x, STATUS, y)), category, warehouse, Falsy, page, perPage);
            var b := ListArgs(Truthy(x), category, warehouse, Truthy(y), page, perPage);
            Given(a) != Given(b) && MakeKey("products", a) == MakeKey("products", b)
  {
    var both := Parted(x, STATUS, y);
    var others := OtherArgs(category, warehouse, page, perPage);
    OthersOutside(others);
    GivenUpdate(others, SEARCH, Truthy(both));
    GivenUpdate(others[SEARCH := Truthy(both)], STATUS, Falsy);
    GivenUpdate(others, SEARCH, Truthy(x));
    GivenUpdate(others[SEARCH := Truthy(x)], STATUS, Truthy(y));
    var a, b := others[SEARCH := Truthy(both)][STATUS := Falsy], others[SEARCH := Truthy(x)][STATUS := Truthy(y)];
    assert STATUS in Given(b) && STATUS !in Given(a);
    SplitInPlace("products", a, b, SEARCH, x, STATUS, y);
  }

  lemma Apart(n: string, k: string, l: string)
    requires Less(k, l) && (Less(n, k) || Less(l, n))
    ensures n != k && n != l && k != l
  {
    LessOrder(n, k);
    LessOrder(n, l);
    LessOrder(k, l);
  }

  lemma OthersOutside(others: Kwargs)
    requires others.Keys == {"category", "warehouse", "page", "per_page"}
    ensures Less(SEARCH, STATUS) && SEARCH != STATUS && SEARCH !in others && STATUS !in others
    ensures forall n :: n in others ==> Less(n, SEARCH) || Less(STATUS, n)
  {
    NamesInOrder();
    Apart("category", SEARCH, STATUS);
    Apart("page", SEARCH, STATUS);
    Apart("per_page", SEARCH, STATUS);
    Apart("warehouse", SEARCH, STATUS);
  }

  lemma NamesInOrder()
    ensures Less("category", SEARCH) && Less("page", SEARCH) && Less("per_page", SEARCH)
    ensures Less(SEARCH, STATUS) && Less(STATUS, "warehouse")
  {
    assert SEARCH[1..] == "earch" && STATUS[1..] == "tock_status";
    assert Less("earch", "tock_status");
  }
}
