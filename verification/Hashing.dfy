/** The delimited encoding that hash_elems feeds to SHA-256: src/electionguard/hash.cpp. */
module Hashing {
  import opened ElementQ
  import opened Hex

  /** SHA-256 as an arbitrary function from byte strings to 256-bit digests. */
  type Sha = string -> Word

  /** CryptoHashableType. `Element` covers both element types and hashables, which all print a number. */
  datatype Item =
    | Null
    | Element(value: nat)
    | Number(n: nat)
    | Text(s: string)
    | Many(items: seq<Item>)

  const DELIMITER := "|"

  function Decimal(n: nat): string {
    if n < 10 then [HexDigit(n)] else Decimal(n / 10) + [HexDigit(n % 10)]
  }

  /** get_hash_string: zero, the empty string and the empty vector all print as "null". */
  function Render(sha: Sha, item: Item): string
    decreases item, 2
  {
    match item
    case Null => "null"
    case Element(v) => ToHex(v)
    case Number(n) => if n != 0 then Decimal(n) else "null"
    case Text(s) => if s == "" then "null" else s
    case Many(items) => if items == [] then "null" else ToHex(Digest(sha, RenderAll(sha, items)))
  }

  function RenderAll(sha: Sha, items: seq<Item>): (texts: seq<string>)
    ensures |texts| == |items|
    ensures forall i :: 0 <= i < |items| ==> texts[i] == Render(sha, items[i])
    decreases items, 1
  {
    if items == [] then [] else [Render(sha, items[0])] + RenderAll(sha, items[1..])
  }

  /** Each text followed by the delimiter. */
  function Delimited(texts: seq<string>): string {
    if texts == [] then "" else texts[0] + DELIMITER + Delimited(texts[1..])
  }

  /** hash_open, the updates and hash_close: the digest goes through add_mod_q with zero. */
  function Digest(sha: Sha, texts: seq<string>): (r: nat)
    ensures r < Q
  {
    AddModQ(sha(DELIMITER + Delimited(if texts == [] then ["null"] else texts)), 0)
  }

  function HashElems(sha: Sha, items: seq<Item>): (r: nat)
    ensures r < Q
  {
    Digest(sha, RenderAll(sha, items))
  }

  /** The streaming hash: the state is the text absorbed so far. */
  method HashElemsStreaming(sha: Sha, items: seq<Item>) returns (r: nat)
    ensures r == HashElems(sha, items)
  {
    var texts := RenderAll(sha, items);
    var absorbed := DELIMITER;
    if items == [] {
      absorbed := absorbed + Render(sha, Null) + DELIMITER;
      assert Delimited(["null"]) == "null" + DELIMITER + Delimited([]);
      assert absorbed == DELIMITER + Delimited(["null"]);
    } else {
      for i := 0 to |items|
        invariant absorbed + Delimited(texts[i..]) == DELIMITER + Delimited(texts)
      {
        var before := absorbed;
        absorbed := absorbed + Render(sha, items[i]) + DELIMITER;
        assert texts[i..][1..] == texts[i + 1..];
        assert absorbed + Delimited(texts[i + 1..]) == before + Delimited(texts[i..]);
      }
      assert absorbed + "" == absorbed;
    }
    r := AddModQWords(sha(absorbed), 0);
  }

  // ------------------------------------------------ the encoding can be read back

  predicate Clean(s: string) {
    forall i :: 0 <= i < |s| ==> s[i] != '|'
  }

  lemma CutUnique(a: string, b: string, s: string, t: string)
    requires Clean(a) && Clean(b)
    requires a + DELIMITER + s == b + DELIMITER + t
    ensures a == b && s == t
  {
    var x, y := a + DELIMITER + s, b + DELIMITER + t;
    assert x[|a|] == '|' && y[|b|] == '|';
    assert a == x[..|a|] && b == y[..|b|];
    assert s == x[|a| + 1..] && t == y[|b| + 1..];
  }

  /** Texts without the delimiter are determined by their encoding. */
  lemma {:induction false} DelimitedInjective(xs: seq<string>, ys: seq<string>)
    requires forall i :: 0 <= i < |xs| ==> Clean(xs[i])
    requires forall i :: 0 <= i < |ys| ==> Clean(ys[i])
    requires Delimited(xs) == Delimited(ys)
    ensures xs == ys
  {
    if xs == [] || ys == [] {
    } else {
      CutUnique(xs[0], ys[0], Delimited(xs[1..]), Delimited(ys[1..]));
      DelimitedInjective(xs[1..], ys[1..]);
      assert xs == [xs[0]] + xs[1..] && ys == [ys[0]] + ys[1..];
    }
  }

  /** Two different texts on which SHA-256, reduced as all hashes are, has one value. */
  predicate Collide(sha: Sha, xs: seq<string>, ys: seq<string>) {
    && Delimited(xs) != Delimited(ys)
    && AddModQ(sha(DELIMITER + Delimited(xs)), 0) == AddModQ(sha(DELIMITER + Delimited(ys)), 0)
  }

  /** Equal digests of different texts are collisions. */
  lemma EqualDigests(sha: Sha, xs: seq<string>, ys: seq<string>)
    requires xs != [] && ys != []
    ensures Digest(sha, xs) == Digest(sha, ys) <==> Delimited(xs) == Delimited(ys) || Collide(sha, xs, ys)
  {
    hide Delimited;
  }

  predicate AllClean(texts: seq<string>) {
    forall i :: 0 <= i < |texts| ==> Clean(texts[i])
  }

  /** A hash determines the rendered items, unless the two texts hashed are a collision. */
  lemma HashBinds(sha: Sha, items: seq<Item>, items': seq<Item>)
    requires items != [] && items' != [] && AllClean(RenderAll(sha, items)) && AllClean(RenderAll(sha, items'))
    requires HashElems(sha, items) == HashElems(sha, items')
    ensures RenderAll(sha, items) == RenderAll(sha, items') ||
            Collide(sha, RenderAll(sha, items), RenderAll(sha, items'))
  {
    hide Digest, Delimited, Collide;
    var xs, ys := RenderAll(sha, items), RenderAll(sha, items');
    EqualDigests(sha, xs, ys);
    if Delimited(xs) == Delimited(ys) {
      DelimitedInjective(xs, ys);
    }
  }

  /** How many delimiters a text contains. */
  function Delimiters(s: string): nat {
    if s == "" then 0 else Delimiters(s[..|s| - 1]) + if s[|s| - 1] == '|' then 1 else 0
  }

  lemma {:induction false} DelimitersAdd(s: string, t: string)
    ensures Delimiters(s + t) == Delimiters(s) + Delimiters(t)
  {
    if t == "" {
      assert s + t == s;
    } else {
      DelimitersAdd(s, t[..|t| - 1]);
      assert (s + t)[..|s| + |t| - 1] == s + t[..|t| - 1];
    }
  }

  lemma {:induction false} CleanMeansNoDelimiters(s: string)
    ensures Clean(s) <==> Delimiters(s) == 0
  {
    if s == "" {
    } else {
      CleanMeansNoDelimiters(s[..|s| - 1]);
    }
  }

  /** Appending a field appends its text and a delimiter. */
  lemma {:induction false} DelimitedAppend(xs: seq<string>, x: string)
    ensures Delimited(xs + [x]) == Delimited(xs) + x + DELIMITER
  {
    if xs == [] {
      assert [x][1..] == [] && x + DELIMITER + "" == x + DELIMITER;
    } else {
      DelimitedAppend(xs[1..], x);
      assert (xs + [x])[1..] == xs[1..] + [x];
      var rest := Delimited(xs[1..]);
      assert xs[0] + DELIMITER + (rest + x + DELIMITER) == (xs[0] + DELIMITER + rest) + x + DELIMITER;
    }
  }

  /** A clean last field can be cut off from the right. */
  lemma CutLast(a: string, b: string, x: string, y: string)
    requires Clean(x) && Clean(y) && a + DELIMITER + x + DELIMITER == b + DELIMITER + y + DELIMITER
    ensures a == b && x == y
  {
    var s, t := a + DELIMITER + x + DELIMITER, b + DELIMITER + y + DELIMITER;
    assert s[|a|] == '|' && t[|b|] == '|';
    assert forall i :: |a| < i < |s| - 1 ==> s[i] == x[i - |a| - 1];
    assert forall i :: |b| < i < |t| - 1 ==> t[i] == y[i - |b| - 1];
    assert |a| == |b|;
    assert a == s[..|a|] && b == t[..|b|] && x == s[|a| + 1..|s| - 1] && y == t[|b| + 1..|t| - 1];
  }

  lemma {:induction false} FieldDelimiters(head: string, tail: seq<string>)
    requires AllClean(tail)
    ensures Delimiters(Delimited([head] + tail)) == Delimiters(head) + |tail| + 1
  {
    hide Delimited;
    DelimitersAdd("", DELIMITER);
    assert DELIMITER[..0] == "";
    if tail == [] {
      DelimitedAppend([], head);
      NoFields();
      assert [head] + tail == [] + [head] && "" + head + DELIMITER == head + DELIMITER;
      DelimitersAdd(head, DELIMITER);
    } else {
      var n := |tail| - 1;
      FieldDelimiters(head, tail[..n]);
      var front := [head] + tail[..n];
      assert [head] + tail == front + [tail[n]];
      DelimitedAppend(front, tail[n]);
      DelimitersAdd(Delimited(front) + tail[n], DELIMITER);
      DelimitersAdd(Delimited(front), tail[n]);
      CleanMeansNoDelimiters(tail[n]);
    }
  }

  lemma NoFields()
    ensures Delimited([]) == ""
  {
  }

  /** With as many clean fields behind the first one, equal texts have equal fields. */
  lemma {:induction false} SameFields(head: string, tail: seq<string>, head': string, tail': seq<string>)
    requires AllClean(tail) && AllClean(tail') && |tail| == |tail'|
    requires Delimited([head] + tail) == Delimited([head'] + tail')
    ensures head == head' && tail == tail'
  {
    hide Delimited;
    NoFields();
    if tail == [] {
      DelimitedAppend([], head);
      DelimitedAppend([], head');
      assert [head] + tail == [] + [head] && [head'] + tail' == [] + [head'];
      assert "" + head + DELIMITER == head + DELIMITER && "" + head' + DELIMITER == head' + DELIMITER;
      assert head == (head + DELIMITER)[..|head|] && head' == (head' + DELIMITER)[..|head'|];
    } else {
      var n := |tail| - 1;
      var front, front' := [head] + tail[..n], [head'] + tail'[..n];
      assert [head] + tail == front + [tail[n]] && [head'] + tail' == front' + [tail'[n]];
      DelimitedAppend(front, tail[n]);
      DelimitedAppend(front', tail'[n]);
      var a := EndsWithDelimiter(front);
      var b := EndsWithDelimiter(front');
      CutLast(a, b, tail[n], tail'[n]);
      SameFields(head, tail[..n], head', tail'[..n]);
      assert tail == tail[..n] + [tail[n]] && tail' == tail'[..n] + [tail'[n]];
    }
  }

  lemma EndsWithDelimiter(xs: seq<string>) returns (a: string)
    requires xs != []
    ensures Delimited(xs) == a + DELIMITER
  {
    var n := |xs| - 1;
    DelimitedAppend(xs[..n], xs[n]);
    assert xs == xs[..n] + [xs[n]];
    a := Delimited(xs[..n]) + xs[n];
  }

  /**
   * What a text fixes when only its first field may contain the delimiter: two equal texts have the same fields if
   * and only if they have the same number of fields, and that holds if and only if their first fields contain the
   * same number of delimiters.
   */
  lemma TextFixesFields(head: string, tail: seq<string>, head': string, tail': seq<string>)
    requires AllClean(tail) && AllClean(tail') && Delimited([head] + tail) == Delimited([head'] + tail')
    ensures head == head' && tail == tail' <==> |tail| == |tail'|
    ensures |tail| == |tail'| <==> Delimiters(head) == Delimiters(head')
  {
    hide Delimited, Delimiters;
    FieldDelimiters(head, tail);
    FieldDelimiters(head', tail');
    if |tail| == |tail'| {
      SameFields(head, tail, head', tail');
    }
  }

  /** Behind clean fields, a last field may contain anything. */
  lemma {:induction false} CleanFrontFixesFields(front: seq<string>, last: string, front': seq<string>, last': string)
    requires AllClean(front) && AllClean(front') && |front| == |front'|
    requires Delimited(front + [last]) == Delimited(front' + [last'])
    ensures front == front' && last == last'
  {
    if front == [] {
      assert front + [last] == [last] && front' + [last'] == [last'];
      assert last + DELIMITER + "" == last' + DELIMITER + "";
      assert last == (last + DELIMITER + "")[..|last|] && last' == (last' + DELIMITER + "")[..|last'|];
    } else {
      assert (front + [last])[1..] == front[1..] + [last] && (front' + [last'])[1..] == front'[1..] + [last'];
      CutUnique(front[0], front'[0], Delimited(front[1..] + [last]), Delimited(front'[1..] + [last']));
      CleanFrontFixesFields(front[1..], last, front'[1..], last');
      assert front == [front[0]] + front[1..] && front' == [front'[0]] + front'[1..];
    }
  }

  /** The same for hashes of items of which only the first may print a delimiter. */
  lemma HashFixesItems(sha: Sha, items: seq<Item>, items': seq<Item>)
    requires items != [] && items' != [] && HashElems(sha, items) == HashElems(sha, items')
    requires AllClean(RenderAll(sha, items)[1..]) && AllClean(RenderAll(sha, items')[1..])
    ensures || Collide(sha, RenderAll(sha, items), RenderAll(sha, items'))
            || (&& (RenderAll(sha, items) == RenderAll(sha, items') <==> |items| == |items'|)
                && (|items| == |items'| <==>
                    Delimiters(Render(sha, items[0])) == Delimiters(Render(sha, items'[0]))))
  {
    hide Digest, Delimited, Collide, Clean, Delimiters;
    var xs, ys := RenderAll(sha, items), RenderAll(sha, items');
    EqualDigests(sha, xs, ys);
    assert xs == [xs[0]] + xs[1..] && ys == [ys[0]] + ys[1..];
    if Delimited(xs) == Delimited(ys) {
      TextFixesFields(xs[0], xs[1..], ys[0], ys[1..]);
    }
  }

  lemma ElementsRendered(sha: Sha, items: seq<Item>, items': seq<Item>, i: nat)
    requires RenderAll(sha, items) == RenderAll(sha, items') && i < |items|
    requires items[i].Element? && items'[i].Element?
    ensures items[i].value == items'[i].value
  {
    hide RenderAll;
    assert Render(sha, items[i]) == RenderAll(sha, items)[i] == Render(sha, items'[i]);
    ToHexInjective(items[i].value, items'[i].value);
  }

  /** Behind the identifier, everything that is hashed prints in hexadecimal. */
  lemma RenderedClean(sha: Sha, items: seq<Item>)
    requires items != [] && forall i :: 1 <= i < |items| ==> items[i].Element?
    ensures AllClean(RenderAll(sha, items)[1..])
  {
    hide RenderAll;
    forall i | 1 <= i < |items| ensures Clean(RenderAll(sha, items)[i]) {
      assert RenderAll(sha, items)[i] == Render(sha, items[i]);
      HexClean(items[i].value);
    }
  }

  lemma {:induction false} HexClean(n: nat)
    ensures Clean(HexPairs(n)) && Clean(ToHex(n))
  {
    if n == 0 {
    } else {
      HexClean(n / 256);
    }
  }

  lemma {:induction false} DecimalClean(n: nat)
    ensures Clean(Decimal(n)) && Decimal(n) != ""
    ensures AllHex(Decimal(n)) && DecimalValue(Decimal(n)) == n
  {
    if n >= 10 {
      DecimalClean(n / 10);
      var front := Decimal(n / 10);
      assert (front + [HexDigit(n % 10)])[..|front|] == front;
    } else {
      assert [HexDigit(n)][..0] == "";
    }
  }

  function DecimalValue(s: string): nat
    requires AllHex(s)
  {
    if s == "" then 0 else DecimalValue(s[..|s| - 1]) * 10 + DigitValue(s[|s| - 1])
  }

  /** Numbers print differently from each other, and zero's "null" is no decimal. */
  lemma NumberInjective(sha: Sha, m: nat, n: nat)
    ensures Clean(Render(sha, Number(m)))
    ensures Render(sha, Number(m)) == Render(sha, Number(n)) <==> m == n
  {
    DecimalClean(m);
    DecimalClean(n);
    assert !IsHexDigit("null"[0]);
  }

  // ------------------------------------------------------ what a hash of items commits to

  /** Where two equal texts may be cut: after a first field with equally many delimiters, and nowhere else. */
  lemma CutByDelimiters(a: string, b: string, s: string, t: string)
    requires a + DELIMITER + s == b + DELIMITER + t
    ensures a == b && s == t <==> Delimiters(a) == Delimiters(b)
  {
    hide Delimiters;
    if |a| < |b| {
      PrefixHasFewer(a, b, s, t);
    } else if |b| < |a| {
      PrefixHasFewer(b, a, t, s);
    } else {
      var x := a + DELIMITER + s;
      assert a == x[..|a|] && b == x[..|a|];
      assert s == x[|a| + 1..] && t == x[|a| + 1..];
    }
  }

  lemma PrefixHasFewer(a: string, b: string, s: string, t: string)
    requires a + DELIMITER + s == b + DELIMITER + t && |a| < |b|
    ensures Delimiters(a) < Delimiters(b)
  {
    hide Delimiters;
    var x := a + DELIMITER + s;
    var rest := b[|a| + 1..];
    assert x[..|b|] == b && b[..|a|] == x[..|a|] == a && b[|a|] == x[|a|] == '|';
    assert b == a + DELIMITER + rest;
    DelimitersAdd(a + DELIMITER, rest);
    DelimitersAdd(a, DELIMITER);
    OneDelimiter();
  }

  lemma OneDelimiter()
    ensures Delimiters(DELIMITER) == 1
  {
    assert DELIMITER[..0] == "";
  }

  /** Field by field equally many delimiters. */
  predicate SameDelimiterCounts(xs: seq<string>, ys: seq<string>) {
    |xs| == |ys| && forall i :: 0 <= i < |xs| ==> Delimiters(xs[i]) == Delimiters(ys[i])
  }

  /** Two equal texts have the same fields if and only if these contain equally many delimiters, one by one. */
  lemma {:induction false} FieldsFixed(xs: seq<string>, ys: seq<string>)
    requires Delimited(xs) == Delimited(ys)
    ensures xs == ys <==> SameDelimiterCounts(xs, ys)
  {
    hide Delimiters;
    if xs == [] || ys == [] {
    } else {
      CutByDelimiters(xs[0], ys[0], Delimited(xs[1..]), Delimited(ys[1..]));
      if SameDelimiterCounts(xs, ys) {
        assert SameDelimiterCounts(xs[1..], ys[1..]);
        FieldsFixed(xs[1..], ys[1..]);
        assert xs == [xs[0]] + xs[1..] && ys == [ys[0]] + ys[1..];
      }
    }
  }

  /** Items that print without the delimiter, and differently for different values. */
  predicate Numeric(item: Item) {
    item.Element? || item.Number?
  }

  lemma NumericClean(sha: Sha, item: Item)
    requires Numeric(item)
    ensures Clean(Render(sha, item)) && Delimiters(Render(sha, item)) == 0
  {
    hide Decimal, HexPairs, Clean, Delimiters;
    match item {
      case Element(v) => HexClean(v);
      case Number(n) => NumberInjective(sha, n, n);
    }
    CleanMeansNoDelimiters(Render(sha, item));
  }

  lemma NumericFixed(sha: Sha, item: Item, item': Item)
    requires Numeric(item) && (item.Element? <==> item'.Element?) && (item.Number? <==> item'.Number?)
    requires Render(sha, item) == Render(sha, item')
    ensures item == item'
  {
    hide Decimal, HexPairs, Clean;
    match item {
      case Element(v) => ToHexInjective(v, item'.value);
      case Number(n) => NumberInjective(sha, n, item'.n);
    }
  }

  /** A hash of elements and numbers determines each of them, unless the two hashed texts collide. */
  lemma NumericItemsFixed(sha: Sha, items: seq<Item>, items': seq<Item>)
    requires items != [] && items' != [] && HashElems(sha, items) == HashElems(sha, items')
    requires |items| == |items'|
    requires forall i :: 0 <= i < |items| ==> Numeric(items[i]) && Numeric(items'[i])
    requires forall i :: 0 <= i < |items| ==> (items[i].Element? <==> items'[i].Element?)
    ensures items == items' || Collide(sha, RenderAll(sha, items), RenderAll(sha, items'))
  {
    hide Digest, Delimited, Render, Delimiters, Collide;
    var xs, ys := RenderAll(sha, items), RenderAll(sha, items');
    EqualDigests(sha, xs, ys);
    if Delimited(xs) == Delimited(ys) {
      forall i | 0 <= i < |items| ensures Delimiters(xs[i]) == Delimiters(ys[i]) {
        NumericClean(sha, items[i]);
        NumericClean(sha, items'[i]);
      }
      FieldsFixed(xs, ys);
      forall i | 0 <= i < |items| ensures items[i] == items'[i] {
        NumericFixed(sha, items[i], items'[i]);
      }
    }
  }

  /** A hash of any items determines what they print exactly as far as the delimiters in them agree. */
  lemma HashFixesFields(sha: Sha, items: seq<Item>, items': seq<Item>)
    requires items != [] && items' != [] && HashElems(sha, items) == HashElems(sha, items')
    ensures || Collide(sha, RenderAll(sha, items), RenderAll(sha, items'))
            || (RenderAll(sha, items) == RenderAll(sha, items')
                <==> SameDelimiterCounts(RenderAll(sha, items), RenderAll(sha, items')))
  {
    hide Digest, Delimited, SameDelimiterCounts, Collide;
    var xs, ys := RenderAll(sha, items), RenderAll(sha, items');
    EqualDigests(sha, xs, ys);
    if Delimited(xs) == Delimited(ys) {
      FieldsFixed(xs, ys);
    }
  }

  /** The empty list is hashed as the text "null", like a single empty item. */
  lemma NothingHashesAsNull(sha: Sha)
    ensures HashElems(sha, []) == HashElems(sha, [Null])
  {
    assert RenderAll(sha, [Null]) == ["null"];
  }

  lemma HexIsNotNull(n: nat)
    ensures ToHex(n) != "null"
  {
    HexPairsValue(n);
    assert !IsHexDigit("null"[0]);
  }

  /** Vectors and absent values print without the delimiter too. */
  lemma ListClean(sha: Sha, item: Item)
    requires item.Null? || item.Many?
    ensures Clean(Render(sha, item)) && Delimiters(Render(sha, item)) == 0
  {
    hide HexPairs, Clean, Delimiters, Digest;
    if item.Many? && item.items != [] {
      HexClean(Digest(sha, RenderAll(sha, item.items)));
    } else {
      NullClean();
    }
    CleanMeansNoDelimiters(Render(sha, item));
  }

  lemma NullClean()
    ensures Clean("null")
  {
  }

  /** A printed vector of elements determines them, unless the two texts hashed for the vectors collide. */
  lemma ManyBinds(sha: Sha, xs: seq<Item>, ys: seq<Item>)
    requires forall i :: 0 <= i < |xs| ==> xs[i].Element?
    requires forall i :: 0 <= i < |ys| ==> ys[i].Element?
    ensures Render(sha, Many(xs)) == Render(sha, Many(ys)) ==>
              xs == ys || Collide(sha, RenderAll(sha, xs), RenderAll(sha, ys))
  {
    hide Digest, HexPairs, ToHex, Collide, AllClean, Delimiters, RenderAll;
    if xs != [] && ys != [] && Render(sha, Many(xs)) == Render(sha, Many(ys)) {
      ToHexInjective(Digest(sha, RenderAll(sha, xs)), Digest(sha, RenderAll(sha, ys)));
      ElementsClean(sha, xs);
      ElementsClean(sha, ys);
      HashBinds(sha, xs, ys);
      if RenderAll(sha, xs) == RenderAll(sha, ys) {
        assert |xs| == |RenderAll(sha, xs)| == |ys|;
        forall i | 0 <= i < |xs| ensures xs[i] == ys[i] {
          ElementsRendered(sha, xs, ys, i);
        }
      }
    } else if xs != [] {
      HexIsNotNull(Digest(sha, RenderAll(sha, xs)));
    } else if ys != [] {
      HexIsNotNull(Digest(sha, RenderAll(sha, ys)));
    }
  }

  lemma ElementsClean(sha: Sha, items: seq<Item>)
    requires forall i :: 0 <= i < |items| ==> items[i].Element?
    ensures AllClean(RenderAll(sha, items))
  {
    hide RenderAll, Clean;
    forall i | 0 <= i < |items| ensures Clean(RenderAll(sha, items)[i]) {
      assert RenderAll(sha, items)[i] == Render(sha, items[i]);
      HexClean(items[i].value);
    }
  }

  /** What an identifier or name contributes to a hashed text. */
  function Printed(s: string): string {
    if s == "" then "null" else s
  }
}
