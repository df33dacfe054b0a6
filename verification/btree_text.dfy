/** Text save and load of the tree (Lab_3/Lab_3/btree.cpp:12-20, 407-427):
    `save` writes one "key payload" line per record in key order, and
    `load` starts from an empty tree, cuts the input at each space into a
    key token, parses it with `std::stoi`, takes the rest of the line as
    the payload and inserts the record. */
module BTreeText {
  import opened Maybe
  import opened InOrder
  import opened BTreeRoot

  /** The range of the C++ `int` that `std::stoi` returns. */
  const IntMin := -0x8000_0000
  const IntMax := 0x7FFF_FFFF

  predicate IsDigit(c: char) {
    '0' <= c <= '9'
  }

  /** The characters `isspace` accepts: space, tab, newline, vertical tab,
      form feed and carriage return. */
  predicate IsSpace(c: char) {
    c == ' ' || '\t' <= c <= '\r'
  }

  function DigitChar(d: int): (c: char)
    requires 0 <= d < 10
    ensures IsDigit(c) && DigitValue(c) == d
  {
    ('0' as int + d) as char
  }

  function DigitValue(c: char): (d: nat)
    requires IsDigit(c)
    ensures d < 10
  {
    c as int - '0' as int
  }

  // ---------------------------------------------------------------- save

  /** The decimal digits of `n`, most significant first. */
  function Digits(n: nat): (s: string)
    ensures 1 <= |s| && forall i :: 0 <= i < |s| ==> IsDigit(s[i])
    decreases n
  {
    if n < 10 then [DigitChar(n)] else Digits(n / 10) + [DigitChar(n % 10)]
  }

  /** `out << key`: a minus sign for a negative key, then its digits. */
  function Show(k: int): (s: string)
    ensures 1 <= |s| && forall i :: 0 <= i < |s| ==> !IsSpace(s[i])
  {
    if k < 0 then "-" + Digits(-k) else Digits(k)
  }

  /** `out << keys[i] << " " << data[i] << "\n"` (btree.cpp:15). */
  function Line(p: Pair): string {
    Show(p.0) + " " + p.1 + "\n"
  }

  /** The lines of a record sequence, in order. */
  function Render(s: seq<Pair>): string
    decreases |s|
  {
    if |s| == 0 then "" else Line(s[0]) + Render(s[1..])
  }

  /** `BTree::save` (btree.cpp:407-411): the in-order traversal of the
      root, or nothing for the empty tree. */
  function Save(t: BTree): string
    requires Valid(t)
  {
    Render(Contents(t))
  }

  // ---------------------------------------------------------------- stoi

  /** What `std::stoi` throws: `std::invalid_argument` when no digits
      follow the blanks and sign, `std::out_of_range` when the number does
      not fit an `int`. */
  datatype StoiError = InvalidArgument | OutOfRange

  /** The number a run of decimal digits denotes. */
  function Value(s: string): nat
    requires forall i :: 0 <= i < |s| ==> IsDigit(s[i])
    decreases |s|
  {
    if |s| == 0 then 0 else Value(s[..|s| - 1]) * 10 + DigitValue(s[|s| - 1])
  }

  /** The input after its leading blanks. */
  function SkipSpace(s: string): (r: string)
    ensures |r| <= |s| && r == s[|s| - |r|..]
    ensures forall i :: 0 <= i < |s| - |r| ==> IsSpace(s[i])
    ensures 0 < |r| ==> !IsSpace(r[0])
    decreases |s|
  {
    if 0 < |s| && IsSpace(s[0]) then SkipSpace(s[1..]) else s
  }

  /** The length of the run of digits that `s` starts with. */
  function DigitRun(s: string): (n: nat)
    ensures n <= |s| && forall i :: 0 <= i < n ==> IsDigit(s[i])
    ensures n < |s| ==> !IsDigit(s[n])
    decreases |s|
  {
    if 0 < |s| && IsDigit(s[0]) then 1 + DigitRun(s[1..]) else 0
  }

  /** `std::stoi(s)` in base 10: blanks, an optional sign, then the longest
      run of digits; whatever follows the digits is ignored. */
  function Stoi(s: string): (r: Result<int, StoiError>)
    ensures r.Ok? ==> IntMin <= r.value <= IntMax
  {
    var u := SkipSpace(s);
    var signed := 0 < |u| && (u[0] == '-' || u[0] == '+');
    var v := if signed then u[1..] else u;
    var n := DigitRun(v);
    if n == 0 then Err(InvalidArgument)
    else
      assert forall i :: 0 <= i < n ==> IsDigit(v[..n][i]);
      var m: int := Value(v[..n]);
      var k: int := if signed && u[0] == '-' then -m else m;
      if k < IntMin || IntMax < k then Err(OutOfRange) else Ok(k)
  }

  // ---------------------------------------------------------------- load

  /** `std::getline(in, out, d)`: the characters before the first `d`, the
      input after that `d`, and whether a `d` was found; a read that finds
      none consumes the whole input and sets eof. */
  function ReadUntil(s: string, d: char): (r: (string, string, bool))
    ensures d !in r.0
    ensures r.2 ==> s == r.0 + [d] + r.1
    ensures !r.2 ==> r.0 == s && r.1 == ""
    decreases |s|
  {
    if |s| == 0 then ("", "", false)
    else if s[0] == d then ("", s[1..], true)
    else
      var (a, b, found) := ReadUntil(s[1..], d);
      ([s[0]] + a, b, found)
  }

  /** The tree `load` leaves, and the exception that ended it early, if any:
      an exception from `std::stoi` escapes `load` and leaves the records
      inserted so far in the tree. */
  datatype Loaded = Loaded(tree: BTree, error: Option<StoiError>)

  /** `insert(key, data)` in the loop of `load` (btree.cpp:425): the insert
      with its guard over the corrected search, or over the search as
      written when `asWritten` holds. */
  function Put(t: BTree, key: int, val: string, asWritten: bool): (t': BTree)
    requires Valid(t)
    ensures Valid(t')
    ensures !asWritten ==> t' == Insert(t, key, val).0
    ensures asWritten ==> t' == InsertAsWritten(t, key, val).0
  {
    InsertCorrect(t, key, val);
    InsertAsWrittenCorrect(t, key, val);
    if asWritten then InsertAsWritten(t, key, val).0 else Insert(t, key, val).0
  }

  /** The loop of `BTree::load` (btree.cpp:417-426) on the rest `s` of the
      input, inserting into `t`. A key read that reaches the end of the
      input sets eof, so the loop ends after that round; the payload read
      then finds nothing and the key goes in with an empty payload. */
  function LoadFrom(s: string, t: BTree, asWritten: bool): (r: Loaded)
    requires Valid(t)
    ensures Valid(r.tree)
    decreases |s|
  {
    var (token, rest, more) := ReadUntil(s, ' ');
    if |token| == 0 then
      if more then LoadFrom(rest, t, asWritten) else Loaded(t, None)
    else
      match Stoi(token)
      case Err(e) => Loaded(t, Some(e))
      case Ok(key) =>
        var (data, after, more') := if more then ReadUntil(rest, '\n') else ("", "", false);
        var t' := Put(t, key, data, asWritten);
        if more' then LoadFrom(after, t', asWritten) else Loaded(t', None)
  }

  /** `BTree::load` (btree.cpp:413-427) with the corrected insert guard: the
      old tree is dropped and the input read into an empty one. */
  function Load(s: string): (r: Loaded)
    ensures Valid(r.tree)
  {
    LoadFrom(s, Empty(), false)
  }

  /** `BTree::load` as written, whose inserts are guarded by the search as
      written and so refuse a key that slot `numKeys` of a leaf answers for. */
  function LoadAsWritten(s: string): (r: Loaded)
    ensures Valid(r.tree)
  {
    LoadFrom(s, Empty(), true)
  }

  // ---------------------------------------------------------------- proofs

  /** Records `save` can write and `load` read back: keys an `int` holds
      and payloads without a line break. */
  ghost predicate Saveable(s: seq<Pair>) {
    forall i :: 0 <= i < |s| ==> IntMin <= s[i].0 <= IntMax && '\n' !in s[i].1
  }

  /** Reading the digits back gives the number. */
  lemma {:induction false} ValueDigits(n: nat)
    ensures Value(Digits(n)) == n
    decreases n
  {
    var s := Digits(n);
    if 10 <= n {
      assert s[..|s| - 1] == Digits(n / 10);
      ValueDigits(n / 10);
    }
  }

  /** `std::stoi` reads back what `<<` wrote, and fails with `out_of_range`
      exactly for the numbers outside the range of an `int`. */
  lemma StoiShow(k: int)
    ensures Stoi(Show(k)) == if IntMin <= k <= IntMax then Ok(k) else Err(OutOfRange)
  {
    var s := Show(k);
    assert SkipSpace(s) == s;
    var d := if k < 0 then Digits(-k) else Digits(k);
    assert (if k < 0 then s[1..] else s) == d;
    DigitRunAll(d);
    assert d[..|d|] == d;
    ValueDigits(if k < 0 then -k else k);
  }

  lemma {:induction false} DigitRunAll(s: string)
    requires forall i :: 0 <= i < |s| ==> IsDigit(s[i])
    ensures DigitRun(s) == |s|
    decreases |s|
  {
    if 0 < |s| {
      DigitRunAll(s[1..]);
    }
  }

  /** A read up to `d` stops at the first `d`. */
  lemma {:induction false} ReadUntilFirst(a: string, d: char, b: string)
    requires d !in a
    ensures ReadUntil(a + [d] + b, d) == (a, b, true)
    decreases |a|
  {
    if |a| == 0 {
      assert a + [d] + b == [d] + b;
    } else {
      assert (a + [d] + b)[1..] == a[1..] + [d] + b;
      ReadUntilFirst(a[1..], d, b);
      assert [a[0]] + a[1..] == a;
    }
  }

  /** One saved line followed by more text is read back as its record. */
  lemma LineSplits(p: Pair, rest: string)
    requires '\n' !in p.1
    ensures var (token, r, more) := ReadUntil(Line(p) + rest, ' ');
      && token == Show(p.0) && more
      && ReadUntil(r, '\n') == (p.1, rest, true)
  {
    var k := Show(p.0);
    assert ' ' !in k by {
      forall i | 0 <= i < |k| ensures k[i] != ' ' {
        assert !IsSpace(k[i]);
      }
    }
    assert Line(p) + rest == k + [' '] + (p.1 + ['\n'] + rest);
    ReadUntilFirst(k, ' ', p.1 + ['\n'] + rest);
    ReadUntilFirst(p.1, '\n', rest);
  }

  /** Loading a saved line inserts its record and goes on with the rest. */
  lemma LoadStep(p: Pair, rest: string, t: BTree, asWritten: bool)
    requires Valid(t) && IntMin <= p.0 <= IntMax && '\n' !in p.1
    ensures LoadFrom(Line(p) + rest, t, asWritten) == LoadFrom(rest, Put(t, p.0, p.1, asWritten), asWritten)
  {
    LineSplits(p, rest);
    StoiShow(p.0);
  }

  /** The first key of an increasing `done + todo` is above all of `done`. */
  lemma NextAbove(done: seq<Pair>, todo: seq<Pair>)
    requires Increasing(done + todo) && 0 < |todo|
    ensures AllBelow(done, todo[0].0) && todo[0].0 !in Keys(done)
    ensures Increasing(done + [todo[0]]) && (done + [todo[0]]) + todo[1..] == done + todo
  {
    var s := done + todo;
    assert s[|done|] == todo[0];
    assert forall i :: 0 <= i < |done| ==> s[i] == done[i];
    AllBelowNotIn(done, todo[0].0);
    assert done + [todo[0]] == s[..|done| + 1];
    IncreasingSub(s, 0, |done| + 1);
    assert todo == [todo[0]] + todo[1..];
  }

  /** Inserting a key above every stored one appends its record. */
  lemma InsertAbove(t: BTree, p: Pair)
    requires Valid(t) && AllBelow(Contents(t), p.0) && p.0 !in Keys(Contents(t))
    ensures Valid(Insert(t, p.0, p.1).0)
    ensures Contents(Insert(t, p.0, p.1).0) == Contents(t) + [p]
  {
    InsertCorrect(t, p.0, p.1);
    InsertSortedAfter(Contents(t), [], p);
    assert Contents(t) + [] == Contents(t);
  }

  /** Loading the lines of `todo` into a tree holding `done`, where the keys
      of `done` then `todo` increase, appends `todo` record by record. */
  lemma {:induction false} LoadRender(done: seq<Pair>, todo: seq<Pair>, t: BTree)
    requires Valid(t) && Contents(t) == done
    requires Increasing(done + todo) && Saveable(todo)
    ensures LoadFrom(Render(todo), t, false).error.None?
    ensures Contents(LoadFrom(Render(todo), t, false).tree) == done + todo
    decreases |todo|
  {
    if |todo| == 0 {
      assert done + todo == done;
    } else {
      var p := todo[0];
      LoadStep(p, Render(todo[1..]), t, false);
      NextAbove(done, todo);
      InsertAbove(t, p);
      LoadRender(done + [p], todo[1..], Insert(t, p.0, p.1).0);
    }
  }

  /** Saving a tree and loading the text back gives a tree with the same
      records in the same order, without an exception, when every payload
      is free of line breaks and every key fits an `int`. */
  lemma LoadSave(t: BTree)
    requires Valid(t) && Saveable(Contents(t))
    ensures Load(Save(t)).error.None?
    ensures Contents(Load(Save(t)).tree) == Contents(t)
  {
    ValidContents(t);
    assert [] + Contents(t) == Contents(t);
    LoadRender([], Contents(t), Empty());
  }

  /** The records of the sample text, in order. */
  function SampleRecords(): seq<Pair> {
    [(-5, "a"), (-3, "b"), (0, "c")]
  }

  /** The sample text, line by line. */
  lemma SampleText()
    ensures var s := SampleRecords();
      && Render(s) == "-5 a\n-3 b\n0 c\n"
      && Render(s) == Line(s[0]) + (Line(s[1]) + (Line(s[2]) + ""))
  {
    var s := SampleRecords();
    assert Show(-5) == "-5" && Show(-3) == "-3" && Show(0) == "0";
    assert Render(s[2..]) == Line(s[2]) + "";
    assert Render(s[1..]) == Line(s[1]) + Render(s[2..]);
  }

  /** On the text `-5 a\n-3 b\n0 c\n` the corrected load keeps the three
      records. The load as written drops the record of 0: after -5 and -3
      the leaf's slot 2 was never written and holds 0, so the guard of the
      third insert finds 0 there and refuses it. */
  lemma LoadAsWrittenDrops()
    ensures Render(SampleRecords()) == "-5 a\n-3 b\n0 c\n"
    ensures Load(Render(SampleRecords())).error.None?
    ensures Contents(Load(Render(SampleRecords())).tree) == SampleRecords()
    ensures LoadAsWritten(Render(SampleRecords())).error.None?
    ensures Contents(LoadAsWritten(Render(SampleRecords())).tree) == SampleRecords()[..2]
  {
    SampleText();
    LoadSample();
    LoadSampleAsWritten();
  }

  /** The corrected load of the sample text. */
  lemma LoadSample()
    ensures Load(Render(SampleRecords())).error.None?
    ensures Contents(Load(Render(SampleRecords())).tree) == SampleRecords()
  {
    SampleLoadable();
    assert [] + SampleRecords() == SampleRecords();
    LoadRender([], SampleRecords(), Empty());
  }

  /** The sample records increase and can be saved. */
  lemma SampleLoadable()
    ensures Increasing(SampleRecords()) && Saveable(SampleRecords())
  {
    var s := SampleRecords();
    assert s[0].0 < s[1].0 < s[2].0;
    assert forall i :: 0 <= i < 3 ==> |s[i].1| == 1 && s[i].1[0] != '\n';
  }

  /** The load as written of the sample text, one line at a time. */
  lemma LoadSampleAsWritten()
    ensures LoadAsWritten(Render(SampleRecords())).error.None?
    ensures Contents(LoadAsWritten(Render(SampleRecords())).tree) == SampleRecords()[..2]
  {
    var s := SampleRecords();
    SampleText();
    var t1, t2 := SampleInserts();
    LoadStep(s[0], Line(s[1]) + (Line(s[2]) + ""), Empty(), true);
    LoadStep(s[1], Line(s[2]) + "", t1, true);
    LoadStep(s[2], "", t2, true);
    assert ReadUntil("", ' ') == ("", "", false);
    assert s[..2] == [(-5, "a"), (-3, "b")];
  }

  /** The trees the inserts as written of the sample records leave: the
      third insert leaves the two-key leaf as it was. */
  lemma SampleInserts() returns (t1: BTree, t2: BTree)
    ensures Valid(t1) && Valid(t2)
    ensures t1 == Put(Empty(), -5, "a", true) && t2 == Put(t1, -3, "b", true)
    ensures Put(t2, 0, "c", true) == t2
    ensures Contents(t2) == [(-5, "a"), (-3, "b")]
  {
    TwoInsertsBuild();
    NeverWrittenSlot();
    t1 := Put(Empty(), -5, "a", true);
    t2 := Put(t1, -3, "b", true);
  }
}
