/** Nested key paths of ObjectMapper: the writer of ToJSON.swift and the reader of Map.swift. */
module ObjectMapper {
  import opened Wrappers

  datatype JSON = Null | Scalar(text: string) | Array(elements: seq<JSON>) | Dictionary(entries: map<string, JSON>)
  type Entries = map<string, JSON>
  type Path = seq<string>

  // ---------------------------------------------------------------- Keys

  predicate StartsAt(s: string, d: string, i: nat) {
    i + |d| <= |s| && s[i..i + |d|] == d
  }

  /** The first occurrence of `d` at or after `i`, or the end of the string. */
  function IndexOf(s: string, d: string, i: nat): (r: nat)
    requires i <= |s|
    ensures i <= r <= |s|
    ensures forall j :: i <= j < r ==> !StartsAt(s, d, j)
    ensures r < |s| ==> StartsAt(s, d, r)
    decreases |s| - i
  {
    if i == |s| || StartsAt(s, d, i) then i else IndexOf(s, d, i + 1)
  }

  /** `key.components(separatedBy: delimiter)` */
  function Components(key: string, delimiter: string): (r: Path)
    requires delimiter != []
    ensures r != []
    decreases |key|
  {
    var i := IndexOf(key, delimiter, 0);
    if i == |key| then [key] else [key[..i]] + Components(key[i + |delimiter|..], delimiter)
  }

  function Joined(path: Path, delimiter: string): string
    requires path != []
  {
    if |path| == 1 then path[0] else path[0] + delimiter + Joined(path[1..], delimiter)
  }

  /** Splitting loses nothing. */
  lemma {:induction false} SplitJoin(key: string, delimiter: string)
    requires delimiter != []
    ensures Joined(Components(key, delimiter), delimiter) == key
    decreases |key|
  {
    var i := IndexOf(key, delimiter, 0);
    if i < |key| {
      var rest := key[i + |delimiter|..];
      SplitJoin(rest, delimiter);
      var c := Components(rest, delimiter);
      assert ([key[..i]] + c)[1..] == c;
      assert key == key[..i] + key[i..i + |delimiter|] + rest;
    }
  }

  /** Components without the delimiter's character come back from the key they make. */
  lemma {:induction false} JoinSplit(path: Path, d: char)
    requires path != [] && forall k :: 0 <= k < |path| ==> d !in path[k]
    ensures Components(Joined(path, [d]), [d]) == path
    decreases |path|
  {
    var key := Joined(path, [d]);
    if |path| == 1 {
      forall j | 0 <= j < |key| ensures !StartsAt(key, [d], j) { assert key[j..j + 1] == [key[j]]; }
    } else {
      var n := |path[0]|;
      forall j | 0 <= j < n ensures !StartsAt(key, [d], j) { assert key[j..j + 1] == [path[0][j]]; }
      assert StartsAt(key, [d], n);
      assert IndexOf(key, [d], 0) == n;
      assert key[..n] == path[0] && key[n + 1..] == Joined(path[1..], [d]);
      JoinSplit(path[1..], d);
    }
  }

  // ---------------------------------------------------------------- Array indices

  const INT_MAX: int := 0x7FFF_FFFF_FFFF_FFFF

  function Digits(s: string): Option<nat> {
    if s == [] then Some(0)
    else
      var high := Digits(s[..|s| - 1]);
      var c := s[|s| - 1];
      if high.Some? && '0' <= c <= '9' then Some(10 * high.value + (c as int - '0' as int)) else None
  }

  /** `Int(_: String)` */
  function ParseInt(s: string): Option<int> {
    if s == [] then None
    else
      var signed := s[0] == '-' || s[0] == '+';
      var digits := if signed then s[1..] else s;
      var parsed := Digits(digits);
      if digits == [] || parsed.None? then None
      else
        var n: int := parsed.value;
        var i: int := if s[0] == '-' then -n else n;
        if -INT_MAX - 1 <= i <= INT_MAX then Some(i) else None
  }

  // ---------------------------------------------------------------- Reading

  /** `(isKeyPresent, currentValue)`; no value stands for nil. */
  datatype Found = Found(present: bool, value: Option<JSON>)

  /** `valueFor(_:dictionary:)` */
  function ValueFor(path: Path, d: Entries): Found
    decreases |path|
  {
    if path == [] then Found(false, None)
    else
      var tail := |path| == 1;
      if path[0] !in d then Found(false, None)
      else match d[path[0]]
        case Null => Found(tail, None)
        case Dictionary(inner) => if tail then Found(true, Some(d[path[0]])) else ValueFor(path[1..], inner)
        case Array(elements) => if tail then Found(true, Some(d[path[0]])) else ElementFor(path[1..], elements)
        case Scalar(_) => Found(tail, Some(d[path[0]]))
  }

  /** `valueFor(_:array:)` */
  function ElementFor(path: Path, a: seq<JSON>): Found
    decreases |path|
  {
    if path == [] then Found(false, None)
    else
      var index := ParseInt(path[0]);
      if index.None? || !(0 <= index.value < |a|) then Found(false, None)
      else
        var tail := |path| == 1;
        match a[index.value]
        case Null => Found(tail, None)
        case Array(elements) => if tail then Found(true, Some(a[index.value])) else ElementFor(path[1..], elements)
        case Dictionary(inner) => if tail then Found(true, Some(a[index.value])) else ValueFor(path[1..], inner)
        case Scalar(_) => Found(tail, Some(a[index.value]))
  }

  // ---------------------------------------------------------------- What reading means

  /** A number as it is written. */
  function Decimal(n: nat): string {
    if n < 10 then ["0123456789"[n]] else Decimal(n / 10) + ["0123456789"[n % 10]]
  }

  predicate IsDigit(c: char) {
    c in "0123456789"
  }

  lemma DigitValue(n: nat)
    requires n < 10
    ensures var c := "0123456789"[n]; '0' <= c <= '9' && c as int - '0' as int == n && c != '-' && c != '+'
  {
    assert "0123456789"[n] == ('0' as int + n) as char;
  }

  lemma {:induction false} DigitsOfDecimal(n: nat)
    ensures Decimal(n) != [] && Digits(Decimal(n)) == Some(n)
    ensures Decimal(n)[0] != '-' && Decimal(n)[0] != '+'
  {
    var s, m := Decimal(n), |Decimal(n)| - 1;
    DigitValue(n % 10);
    if n < 10 {
      assert s[..0] == [];
      assert Digits([]) == Some(0);
    } else {
      DigitsOfDecimal(n / 10);
      assert s[..m] == Decimal(n / 10);
    }
  }

  /** How a number may be written. */
  predicate Spells(c: string, n: nat, zeros: nat) {
    var s := Zeros(zeros) + Decimal(n);
    c == s || c == "+" + s
  }

  /** An index is read as the number it is written for, with a plus sign and leading zeros or without; a minus
      sign makes it negative. */
  lemma {:induction false} IndexIsRead(c: string, n: nat, zeros: nat)
    requires n <= INT_MAX && Spells(c, n, zeros)
    ensures ParseInt(c) == Some(n)
    ensures ParseInt("-" + Zeros(zeros) + Decimal(n)) == Some(-(n as int))
  {
    hide Digits, Decimal;
    var s := Zeros(zeros) + Decimal(n);
    DigitsOfDecimal(n);
    LeadingZeros(zeros, Decimal(n));
    if zeros > 0 { assert s[0] == '0'; } else { assert s == Decimal(n); }
    assert "-" + Zeros(zeros) + Decimal(n) == "-" + s;
    SignedNumber(s, n);
  }

  lemma SignedNumber(s: string, n: nat)
    requires s != [] && s[0] != '-' && s[0] != '+' && Digits(s) == Some(n) && n <= INT_MAX
    ensures ParseInt(s) == ParseInt("+" + s) == Some(n)
    ensures ParseInt("-" + s) == Some(-(n as int))
  {
    hide Digits;
    assert ("+" + s)[1..] == s && ("-" + s)[1..] == s;
  }

  function Zeros(n: nat): string {
    seq(n, _ => '0')
  }

  lemma {:induction false} LeadingZeros(n: nat, s: string)
    ensures Digits(Zeros(n) + s) == Digits(s)
    decreases n + |s|
  {
    var t := Zeros(n) + s;
    if s != [] {
      assert t[..|t| - 1] == Zeros(n) + s[..|s| - 1];
      LeadingZeros(n, s[..|s| - 1]);
    } else if n > 0 {
      assert t[..|t| - 1] == Zeros(n - 1) + [];
      LeadingZeros(n - 1, []);
    } else {
      assert t == s;
    }
  }

  /** Everything else is no number. */
  lemma {:induction false} NoNumber(s: string, k: nat)
    requires k < |s| && !IsDigit(s[k]) && (k == 0 ==> |s| == 1 || (s[0] != '-' && s[0] != '+'))
    ensures ParseInt(s) == None
  {
    var signed := s[0] == '-' || s[0] == '+';
    if k == 0 {
      if !signed { NoDigits(s, 0); }
    } else if signed {
      NoDigits(s[1..], k - 1);
    } else {
      NoDigits(s, k);
    }
  }

  lemma {:induction false} NoDigits(s: string, k: nat)
    requires k < |s| && !IsDigit(s[k])
    ensures Digits(s) == None
  {
    var n := |s| - 1;
    if k < n {
      NoDigits(s[..n], k);
    } else if '0' <= s[k] <= '9' {
      DigitValue(s[k] as int - '0' as int);
      assert false;
    }
  }

  /** What one component of a path finds in a value. */
  ghost predicate Finds(c: string, j: JSON, found: Found) {
    match j
    case Dictionary(d) =>
      found == if c !in d then Found(false, None) else if d[c].Null? then Found(true, None) else Found(true, Some(d[c]))
    case Array(a) =>
      && (forall k, z :: 0 <= k < |a| && k <= INT_MAX && Spells(c, k, z) ==>
            found == Found(true, if a[k].Null? then None else Some(a[k])))
      && ((forall k :: 0 <= k < |a| ==> ParseInt(c) != Some(k)) ==> found == Found(false, None))
    case _ => found == Found(false, if j.Null? then None else Some(j))
  }

  /** Reading a path in any value, at the root a dictionary. */
  function Read(path: Path, j: JSON): Found {
    match j
    case Dictionary(d) => ValueFor(path, d)
    case Array(a) => ElementFor(path, a)
    case _ => Found(false, if j.Null? then None else Some(j))
  }

  lemma ReadOne(c: string, j: JSON)
    ensures Finds(c, j, Read([c], j))
  {
    hide Spells, ParseInt;
    if j.Array? {
      forall k, z | 0 <= k < |j.elements| && k <= INT_MAX && Spells(c, k, z)
        ensures Read([c], j) == Found(true, if j.elements[k].Null? then None else Some(j.elements[k]))
      {
        IndexIsRead(c, k, z);
      }
    }
  }

  /** What further components find behind what was found. */
  function ReadOn(found: Found, path: Path): Found {
    if found.present && found.value.Some? then Read(path, found.value.value) else Found(false, found.value)
  }

  /** Reading a path is reading its second part in what the first part finds, through dictionaries and arrays
      alike. */
  lemma {:induction false} ReadParts(p: Path, q: Path, j: JSON)
    requires p != [] && q != []
    ensures Read(p + q, j) == ReadOn(Read(p, j), q)
    decreases |p|
  {
    assert (p + q)[1..] == p[1..] + q;
    if |p| == 1 {
      assert (p + q)[1..] == q;
    } else {
      match j {
        case Dictionary(d) => if p[0] in d { ReadParts(p[1..], q, d[p[0]]); }
        case Array(a) =>
          var index := ParseInt(p[0]);
          if index.Some? && 0 <= index.value < |a| { ReadParts(p[1..], q, a[index.value]); }
        case _ =>
      }
    }
  }

  // ---------------------------------------------------------------- Writing

  /** What a component's child is taken to be when writing below it. */
  function Child(d: Entries, head: string): Entries {
    if head in d && d[head].Dictionary? then d[head].entries else map[]
  }

  /** `setValue(_:forKeyPathComponents:dictionary:)` */
  function Put(d: Entries, path: Path, v: JSON): Entries
    decreases |path|
  {
    if path == [] then d
    else if |path| == 1 then d[path[0] := v]
    else d[path[0] := Dictionary(Put(Child(d, path[0]), path[1..], v))]
  }

  method SetAt(d: Entries, path: Path, v: JSON) returns (d': Entries)
    ensures d' == Put(d, path, v)
    decreases |path|
  {
    d' := d;
    if path == [] { return; }
    if |path| == 1 {
      d' := d'[path[0] := v];
    } else {
      var child := if path[0] in d' && d'[path[0]].Dictionary? then d'[path[0]].entries else map[];
      child := SetAt(child, path[1..], v);
      d' := d'[path[0] := Dictionary(child)];
    }
  }

  // ---------------------------------------------------------------- Put-get

  /** What was written is read back, whatever was there before. */
  lemma {:induction false} PutGet(d: Entries, path: Path, v: JSON)
    requires path != []
    ensures ValueFor(path, Put(d, path, v)) == Found(true, if v.Null? then None else Some(v))
    decreases |path|
  {
    if |path| > 1 { PutGet(Child(d, path[0]), path[1..], v); }
  }

  // ---------------------------------------------------------------- Frame

  predicate Incomparable(p: Path, q: Path) {
    !(p <= q) && !(q <= p)
  }

  /** Writing to the path replaces nothing that could be read on the way. */
  predicate Open(d: Entries, path: Path)
    decreases |path|
  {
    |path| >= 2 && path[0] in d ==>
      match d[path[0]]
      case Null => true
      case Scalar(_) => false
      case Array(elements) => elements == []
      case Dictionary(inner) => Open(inner, path[1..])
  }

  lemma TailsIncomparable(p: Path, q: Path)
    requires Incomparable(p, q) && p[0] == q[0]
    ensures |p| >= 2 && |q| >= 2 && Incomparable(p[1..], q[1..])
  {
    assert p == [p[0]] + p[1..] && q == [q[0]] + q[1..];
  }

  lemma IncomparableIsNonempty(p: Path, q: Path)
    requires Incomparable(p, q)
    ensures p != [] && q != []
  {
  }

  lemma {:induction false} NothingThere(path: Path)
    ensures ValueFor(path, map[]) == Found(false, None) && ElementFor(path, []) == Found(false, None)
  {
  }

  lemma {:induction false} OpenFrame(d: Entries, p: Path, v: JSON, q: Path)
    requires Open(d, p) && Incomparable(p, q)
    ensures ValueFor(q, Put(d, p, v)) == ValueFor(q, d)
    decreases |p|
  {
    IncomparableIsNonempty(p, q);
    if p[0] == q[0] {
      TailsIncomparable(p, q);
      NothingThere(q[1..]);
      OpenFrame(Child(d, p[0]), p[1..], v, q[1..]);
    }
  }

  /** A path that reads what writing below a scalar or a filled array takes away. */
  lemma {:induction false} ClosedWitness(d: Entries, p: Path, v: JSON) returns (q: Path)
    requires !Open(d, p)
    ensures Incomparable(p, q) && ValueFor(q, Put(d, p, v)) != ValueFor(q, d)
    decreases |p|
  {
    assert p == [p[0]] + p[1..];
    if d[p[0]].Dictionary? {
      var rest := ClosedWitness(d[p[0]].entries, p[1..], v);
      q := [p[0]] + rest;
      assert q[1..] == rest;
      PrefixTail(p[0], p[1..], rest);
      PrefixTail(p[0], rest, p[1..]);
    } else {
      var other := if p[1] == "0" then "00" else "0";
      ZeroIndex();
      q := [p[0], other];
      assert q[1..] == [other];
      Elsewhere(Child(d, p[0]), p[1..], v, other);
    }
  }

  lemma PrefixTail(h: string, a: Path, b: Path)
    ensures [h] + a <= [h] + b <==> a <= b
  {
    if [h] + a <= [h] + b {
      assert a == ([h] + a)[1..] && b == ([h] + b)[1..];
    }
  }

  lemma ZeroIndex()
    ensures ParseInt("0") == Some(0) && ParseInt("00") == Some(0)
  {
    assert "0"[..0] == "" && "00"[..1] == "0";
    assert Digits("") == Some(0);
    assert Digits("0") == Some(0);
  }

  /** Writing touches one key of a dictionary. */
  lemma Elsewhere(d: Entries, p: Path, v: JSON, key: string)
    requires p != [] && key != p[0]
    ensures key in Put(d, p, v) <==> key in d
  {
  }

  /** Writing keeps what all other paths read exactly when nothing but dictionaries, nulls and empty arrays
      lay on the way. */
  lemma FrameIff(d: Entries, p: Path, v: JSON)
    ensures Open(d, p) <==> forall q :: Incomparable(p, q) ==> ValueFor(q, Put(d, p, v)) == ValueFor(q, d)
  {
    if Open(d, p) {
      forall q | Incomparable(p, q) ensures ValueFor(q, Put(d, p, v)) == ValueFor(q, d) { OpenFrame(d, p, v, q); }
    } else {
      var q := ClosedWitness(d, p, v);
    }
  }

  // ---------------------------------------------------------------- Commutation and order independence

  /** What writing puts under the first component. */
  function Below(child: Entries, path: Path, v: JSON): JSON
    requires path != []
  {
    if |path| == 1 then v else Dictionary(Put(child, path[1..], v))
  }

  lemma PutBelow(d: Entries, path: Path, v: JSON)
    requires path != []
    ensures Put(d, path, v) == d[path[0] := Below(Child(d, path[0]), path, v)]
  {
  }

  lemma {:induction false} SameHeadCommutes(d: Entries, p: Path, v: JSON, q: Path, w: JSON)
    requires |p| >= 2 && |q| >= 2 && p[0] == q[0]
    requires var c := Child(d, p[0]); Put(Put(c, p[1..], v), q[1..], w) == Put(Put(c, q[1..], w), p[1..], v)
    ensures Put(Put(d, p, v), q, w) == Put(Put(d, q, w), p, v)
  {
    hide Put;
    var h, c := p[0], Child(d, p[0]);
    PutBelow(d, p, v);
    PutBelow(d, q, w);
    PutBelow(Put(d, p, v), q, w);
    PutBelow(Put(d, q, w), p, v);
    assert Child(Put(d, p, v), h) == Put(c, p[1..], v) && Child(Put(d, q, w), h) == Put(c, q[1..], w);
  }

  /** Writes to incomparable paths commute, on every tree. */
  lemma {:induction false} PutsCommute(d: Entries, p: Path, v: JSON, q: Path, w: JSON)
    requires Incomparable(p, q)
    ensures Put(Put(d, p, v), q, w) == Put(Put(d, q, w), p, v)
    decreases |p|
  {
    hide Put;
    IncomparableIsNonempty(p, q);
    if p[0] == q[0] {
      TailsIncomparable(p, q);
      PutsCommute(Child(d, p[0]), p[1..], v, q[1..], w);
      SameHeadCommutes(d, p, v, q, w);
    } else {
      PutBelow(d, p, v);
      PutBelow(d, q, w);
      PutBelow(Put(d, p, v), q, w);
      PutBelow(Put(d, q, w), p, v);
    }
  }

  datatype Field = Field(path: Path, value: JSON)

  function PutAll(d: Entries, fields: seq<Field>): Entries {
    if fields == [] then d
    else Put(PutAll(d, fields[..|fields| - 1]), fields[|fields| - 1].path, fields[|fields| - 1].value)
  }

  ghost predicate Independent(fields: seq<Field>) {
    forall i, j :: 0 <= i < j < |fields| ==> Incomparable(fields[i].path, fields[j].path)
  }

  function Without<T>(s: seq<T>, k: nat): seq<T>
    requires k < |s|
  {
    s[..k] + s[k + 1..]
  }

  lemma WithoutFront<T>(s: seq<T>, k: nat)
    requires k < |s| - 1
    ensures var n, rest := |s| - 1, Without(s, k);
            |rest| == n && rest[..n - 1] == Without(s[..n], k) && rest[n - 1] == s[n]
  {
    var n, rest := |s| - 1, Without(s, k);
    assert |rest| == n;
    assert rest[..n - 1] == Without(s[..n], k);
  }

  /** Any field may be written last. */
  lemma {:induction false} MoveLast(d: Entries, fields: seq<Field>, k: nat)
    requires Independent(fields) && k < |fields|
    ensures PutAll(d, fields) == Put(PutAll(d, Without(fields, k)), fields[k].path, fields[k].value)
    decreases |fields|
  {
    hide Put, Incomparable;
    var n := |fields| - 1;
    if k == n {
      assert Without(fields, n) == fields[..n];
    } else {
      var front := fields[..n];
      MoveLast(d, front, k);
      WithoutFront(fields, k);
      PutsCommute(PutAll(d, Without(front, k)), fields[k].path, fields[k].value, fields[n].path, fields[n].value);
    }
  }

  lemma Twice<T>(s: seq<T>, i: nat, j: nat)
    requires i < j < |s| && s[i] == s[j]
    ensures multiset(s)[s[i]] >= 2
  {
    assert s == s[..j] + [s[j]] + s[j + 1..];
    assert s[..j][i] in multiset(s[..j]);
  }

  lemma LastIsNew(fields: seq<Field>)
    requires Independent(fields) && fields != []
    ensures fields[|fields| - 1] !in fields[..|fields| - 1]
  {
    var n := |fields| - 1;
    forall k | 0 <= k < n ensures fields[..n][k] != fields[n] { assert Incomparable(fields[k].path, fields[n].path); }
  }

  lemma {:induction false} IndependentOnce(fields: seq<Field>, f: Field)
    requires Independent(fields)
    ensures multiset(fields)[f] <= 1
  {
    if fields != [] {
      var n := |fields| - 1;
      IndependentOnce(fields[..n], f);
      assert fields == fields[..n] + [fields[n]];
      LastIsNew(fields);
    }
  }

  lemma IndependentPermutation(a: seq<Field>, b: seq<Field>)
    requires Independent(a) && multiset(a) == multiset(b)
    ensures Independent(b)
  {
    forall i, j | 0 <= i < j < |b| ensures Incomparable(b[i].path, b[j].path) {
      assert b[i] in multiset(a) && b[j] in multiset(a);
      IndependentOnce(a, b[i]);
      if b[i] == b[j] { Twice(b, i, j); }
      var x :| 0 <= x < |a| && a[x] == b[i];
      var y :| 0 <= y < |a| && a[y] == b[j];
      assert x < y ==> Incomparable(a[x].path, a[y].path);
      assert y < x ==> Incomparable(a[y].path, a[x].path);
    }
  }

  /** The order of writing independent fields does not matter. */
  lemma {:induction false} OrderIndependence(d: Entries, a: seq<Field>, b: seq<Field>)
    requires Independent(a) && multiset(a) == multiset(b)
    ensures PutAll(d, a) == PutAll(d, b)
    decreases |a|
  {
    hide Put, Independent;
    assert |multiset(a)| == |a| && |multiset(b)| == |b|;
    if a != [] {
      var n := |a| - 1;
      var k := TakeOut(a, b);
      IndependentPermutation(a, b);
      IndependentPrefix(a);
      MoveLast(d, b, k);
      OrderIndependence(d, a[..n], Without(b, k));
    }
  }

  lemma IndependentPrefix(fields: seq<Field>)
    requires Independent(fields) && fields != []
    ensures Independent(fields[..|fields| - 1])
  {
  }

  /** Where the last element of one ordering is in another. */
  lemma TakeOut<T>(a: seq<T>, b: seq<T>) returns (k: nat)
    requires a != [] && multiset(a) == multiset(b)
    ensures k < |b| && b[k] == a[|a| - 1] && multiset(a[..|a| - 1]) == multiset(Without(b, k))
  {
    var n := |a| - 1;
    assert a == a[..n] + [a[n]];
    assert a[n] in multiset(b);
    k :| 0 <= k < |b| && b[k] == a[n];
    assert b == b[..k] + [b[k]] + b[k + 1..];
    var x, y, e := multiset(a[..n]), multiset(Without(b, k)), multiset{a[n]};
    assert x + e == y + e;
    assert x == (x + e) - e == (y + e) - e == y;
  }

  /** Every field of an object is read back, in whatever order the fields were written. */
  lemma FieldsRoundTrip(d: Entries, fields: seq<Field>, written: seq<Field>, k: nat)
    requires Independent(fields) && multiset(written) == multiset(fields) && k < |fields|
    requires fields[k].path != []
    ensures ValueFor(fields[k].path, PutAll(d, written)) ==
            Found(true, if fields[k].value.Null? then None else Some(fields[k].value))
  {
    OrderIndependence(d, fields, written);
    MoveLast(d, fields, k);
    PutGet(PutAll(d, Without(fields, k)), fields[k].path, fields[k].value);
  }

  // ---------------------------------------------------------------- Whole keys

  predicate HasDelimiter(key: string, delimiter: string)
    requires delimiter != []
    ensures HasDelimiter(key, delimiter) <==> exists i :: 0 <= i < |key| && StartsAt(key, delimiter, i)
  {
    IndexOf(key, delimiter, 0) < |key|
  }

  /** `.filter { !$0.isEmpty }` */
  function Nonempty(path: Path): (r: Path)
    ensures |r| <= |path| && (r == path <==> "" !in path)
  {
    if path == [] then []
    else
      var rest := Nonempty(path[1..]);
      assert path == [path[0]] + path[1..];
      if path[0] == "" then rest else [path[0]] + rest
  }

  /** Exactly the empty components go. */
  lemma {:induction false} NonemptyParts(p: Path, q: Path)
    ensures Nonempty(p + q) == Nonempty(p) + Nonempty(q)
    ensures Nonempty([""]) == [] && forall c :: c != "" ==> Nonempty([c]) == [c]
  {
    if p != [] {
      NonemptyParts(p[1..], q);
      assert (p + q)[1..] == p[1..] + q;
    } else {
      assert p + q == q;
    }
  }

  function ReadKey(d: Entries, key: string, nested: bool, delimiter: string): Found
    requires delimiter != []
  {
    if nested then ValueFor(Components(key, delimiter), d)
    else if key !in d then Found(false, None)
    else if d[key].Null? then Found(true, None)
    else Found(true, Some(d[key]))
  }

  /** `setValue(_:key:checkForNestedKeys:delimiter:dictionary:)` drops empty components; reading keeps them. */
  function WriteKey(d: Entries, key: string, nested: bool, delimiter: string, v: JSON): Entries
    requires delimiter != []
  {
    if nested then Put(d, Nonempty(Components(key, delimiter)), v) else d[key := v]
  }

  lemma {:induction false} ReadIsPart(path: Path, d: Entries)
    ensures var r := ValueFor(path, d); r.value.Some? ==> r.value.value < Dictionary(d)
    decreases |path|
  {
    if path != [] && path[0] in d {
      assert d[path[0]] < Dictionary(d);
      if |path| > 1 {
        match d[path[0]] {
          case Dictionary(inner) => ReadIsPart(path[1..], inner);
          case Array(elements) => ElementIsPart(path[1..], elements);
          case _ =>
        }
      }
    }
  }

  lemma {:induction false} ElementIsPart(path: Path, a: seq<JSON>)
    ensures var r := ElementFor(path, a); r.value.Some? ==> r.value.value < Array(a)
    decreases |path|
  {
    if path != [] {
      var index := ParseInt(path[0]);
      if index.Some? && 0 <= index.value < |a| {
        assert a[index.value] < Array(a);
        if |path| > 1 {
          match a[index.value] {
            case Dictionary(inner) => ReadIsPart(path[1..], inner);
            case Array(elements) => ElementIsPart(path[1..], elements);
            case _ =>
          }
        }
      }
    }
  }

  /** Reading through a component that was dropped never gives the value back. */
  lemma {:induction false} DroppedIsLost(path: Path, v: JSON)
    requires "" in path && !v.Null?
    ensures ValueFor(path, Put(map[], Nonempty(path), v)) != Found(true, Some(v))
    decreases |path|
  {
    assert path == [path[0]] + path[1..];
    var rest := Nonempty(path[1..]);
    if path[0] == "" {
      NonemptyHead(path[1..]);
    } else if rest == [] {
      OnlyEmpty(path[1..]);
      match v {
        case Dictionary(inner) => ReadIsPart(path[1..], inner);
        case Array(elements) => ElementIsPart(path[1..], elements);
        case _ =>
      }
    } else {
      assert Nonempty(path) == [path[0]] + rest && Nonempty(path)[1..] == rest;
      DroppedIsLost(path[1..], v);
    }
  }

  lemma {:induction false} NonemptyHead(path: Path)
    ensures Nonempty(path) == [] || Nonempty(path)[0] != ""
  {
    if path != [] { NonemptyHead(path[1..]); }
  }

  lemma {:induction false} OnlyEmpty(path: Path)
    requires Nonempty(path) == []
    ensures path == [] || path[0] == ""
  {
  }

  /** A value written under a key into an empty object is read back under the same key exactly when the key
      is not nested or has no empty component. */
  lemma KeyRoundTripIff(key: string, nested: bool, delimiter: string, v: JSON)
    requires delimiter != [] && !v.Null?
    ensures ReadKey(WriteKey(map[], key, nested, delimiter, v), key, nested, delimiter) == Found(true, Some(v))
            <==> !nested || "" !in Components(key, delimiter)
  {
    if nested {
      var path := Components(key, delimiter);
      if "" in path { DroppedIsLost(path, v); } else { PutGet(map[], path, v); }
    }
  }

  /** A doubled delimiter makes such a key: what is written under it is found under another one. */
  lemma DoubledDelimiter(v: JSON)
    requires !v.Null?
    ensures var d := WriteKey(map[], "a..b", true, ".", v);
            ReadKey(d, "a..b", true, ".") == Found(false, None) && ReadKey(d, "a.b", true, ".") == Found(true, Some(v))
  {
    hide Components, IndexOf;
    DoubledComponents();
    assert Nonempty(["b"]) == ["b"] && Nonempty(["", "b"]) == ["b"];
    assert Nonempty(["a", "", "b"]) == ["a"] + Nonempty(["a", "", "b"][1..]) && ["a", "", "b"][1..] == ["", "b"];
    var inner: Entries := Put(map[], ["b"], v);
    assert ["a", "b"][1..] == ["b"];
    assert Put(map[], ["a", "b"], v) == map["a" := Dictionary(inner)];
    assert ValueFor(["a", "", "b"], map["a" := Dictionary(inner)]) == ValueFor(["", "b"], inner) == Found(false, None);
    PutGet(map[], ["a", "b"], v);
  }

  lemma DoubledComponents()
    ensures Components("a..b", ".") == ["a", "", "b"] && Components("a.b", ".") == ["a", "b"]
  {
    hide Components, IndexOf;
    JoinSplit(["a", "", "b"], '.');
    JoinSplit(["a", "b"], '.');
    assert Joined(["b"], ".") == "b" && Joined(["", "b"], ".") == ".b";
    assert ["a", "", "b"][1..] == ["", "b"] && ["", "b"][1..] == ["b"] && ["a", "b"][1..] == ["b"];
    assert Joined(["a", "", "b"], ".") == "a..b" && Joined(["a", "b"], ".") == "a.b";
  }

  // ---------------------------------------------------------------- The Map object

  datatype MappingType = FromJSON | ToJSON

  class Map {
    const mappingType: MappingType
    var json: Entries
    var isKeyPresent: bool
    var currentValue: Option<JSON>
    var currentKey: string
    var keyIsNested: bool
    var nestedKeyDelimiter: string

    constructor (mappingType: MappingType, json: Entries)
      ensures this.mappingType == mappingType && this.json == json && !isKeyPresent && currentValue == None
    {
      this.mappingType := mappingType;
      this.json := json;
      isKeyPresent, currentValue := false, None;
      currentKey, keyIsNested, nestedKeyDelimiter := "", false, ".";
    }

    /** `subscript` */
    method Subscript(key: string, nested: Option<bool>, delimiter: string, ignoreNil: bool)
      requires delimiter != []
      modifies this
      ensures json == old(json) && currentKey == key && nestedKeyDelimiter == delimiter
      ensures keyIsNested == if nested.Some? then nested.value else HasDelimiter(key, delimiter)
      ensures mappingType == ToJSON ==> isKeyPresent == old(isKeyPresent) && currentValue == old(currentValue)
      ensures mappingType == FromJSON ==>
                var found := ReadKey(json, key, keyIsNested, delimiter);
                && currentValue == found.value
                && isKeyPresent == (found.present && !(ignoreNil && found.value == None))
      ensures mappingType == FromJSON && !keyIsNested ==>
                && currentValue == (if key in json && !json[key].Null? then Some(json[key]) else None)
                && isKeyPresent == (key in json && !(ignoreNil && json[key].Null?))
    {
      currentKey := key;
      keyIsNested := if nested.Some? then nested.value else HasDelimiter(key, delimiter);
      nestedKeyDelimiter := delimiter;
      if mappingType == FromJSON {
        if keyIsNested {
          var found := ValueFor(Components(key, delimiter), json);
          isKeyPresent, currentValue := found.present, found.value;
        } else if key in json {
          isKeyPresent := true;
          currentValue := if json[key].Null? then None else Some(json[key]);
        } else {
          isKeyPresent, currentValue := false, None;
        }
        if ignoreNil && currentValue == None { isKeyPresent := false; }
      }
    }

    /** `setValue(_:map:)` */
    method SetValue(v: JSON)
      requires nestedKeyDelimiter != []
      modifies this`json
      ensures json == WriteKey(old(json), currentKey, keyIsNested, nestedKeyDelimiter, v)
    {
      if keyIsNested {
        json := SetAt(json, Nonempty(Components(currentKey, nestedKeyDelimiter)), v);
      } else {
        json := json[currentKey := v];
      }
    }
  }

  /** Mapping a value out and in again under one key, as an object's `mapping(map:)` does. */
  method MapOutAndIn(key: string, v: JSON) returns (present: bool, value: Option<JSON>)
    requires !v.Null?
    ensures !HasDelimiter(key, ".") || "" !in Components(key, ".") <==> present && value == Some(v)
  {
    var writer := new Map(ToJSON, map[]);
    writer.Subscript(key, None, ".", false);
    writer.SetValue(v);
    var reader := new Map(FromJSON, writer.json);
    reader.Subscript(key, None, ".", false);
    present, value := reader.isKeyPresent, reader.currentValue;
    KeyRoundTripIff(key, reader.keyIsNested, ".", v);
  }
}
