/** The list helpers of TexUI_module/helper_function.py: `flatten_list` over
    arbitrarily nested lists and `chunk_split`, the fixed-size slicing used by
    the hard cut of `draw_str`. */
module HelperFunction {
  import opened Errors

  /** A Python value that is either a plain item or a (possibly nested) list. */
  datatype Nested<T> = Item(value: T) | List(items: seq<Nested<T>>)

  /** `flatten_list`: a non-list becomes `[x]`; a list is the in-order
      concatenation of the flattenings of its items. */
  function FlattenList<T>(n: Nested<T>): seq<T>
    decreases n, 1
  {
    match n
    case Item(v) => [v]
    case List(items) => FlattenItems(items)
  }

  /** The accumulator loop of `flatten_list` over the items of one list. */
  function FlattenItems<T>(items: seq<Nested<T>>): seq<T>
    decreases items, 0
  {
    if items == [] then [] else FlattenList(items[0]) + FlattenItems(items[1..])
  }

  /** A flat Python list of plain items. */
  function Items<T>(s: seq<T>): (r: seq<Nested<T>>)
    ensures |r| == |s|
    ensures forall i :: 0 <= i < |s| ==> r[i] == Item(s[i])
  {
    if s == [] then [] else [Item(s[0])] + Items(s[1..])
  }

  /** A list of lists of plain items, such as `[line.split("\n") for line in text]`. */
  function Nest2<T>(xss: seq<seq<T>>): (r: Nested<T>)
    ensures r.List? && |r.items| == |xss|
    ensures forall i :: 0 <= i < |xss| ==> r.items[i] == List(Items(xss[i]))
  {
    List(seq(|xss|, i requires 0 <= i < |xss| => List(Items(xss[i]))))
  }

  /** Concatenation of a list of lists. */
  function Concat<T>(xss: seq<seq<T>>): seq<T> {
    if xss == [] then [] else xss[0] + Concat(xss[1..])
  }

  lemma {:induction false} ConcatAppend<T>(a: seq<seq<T>>, b: seq<seq<T>>)
    ensures Concat(a + b) == Concat(a) + Concat(b)
  {
    if a == [] {
      assert a + b == b;
    } else {
      assert (a + b)[1..] == a[1..] + b;
      ConcatAppend(a[1..], b);
    }
  }

  lemma {:induction false} FlattenItemsAppend<T>(a: seq<Nested<T>>, b: seq<Nested<T>>)
    ensures FlattenItems(a + b) == FlattenItems(a) + FlattenItems(b)
  {
    if a == [] {
      assert a + b == b;
    } else {
      assert (a + b)[1..] == a[1..] + b;
      FlattenItemsAppend(a[1..], b);
    }
  }

  /** A flat list of items is its own flattening. */
  lemma {:induction false} FlattenFlat<T>(s: seq<T>)
    ensures FlattenItems(Items(s)) == s
  {
    if s != [] {
      assert Items(s)[1..] == Items(s[1..]);
      FlattenFlat(s[1..]);
    }
  }

  /** `flatten_list` is idempotent. */
  lemma FlattenIdempotent<T>(n: Nested<T>)
    ensures FlattenList(List(Items(FlattenList(n)))) == FlattenList(n)
  {
    FlattenFlat(FlattenList(n));
  }

  /** Flattening a two-level list is concatenation. */
  lemma {:induction false} FlattenNest2<T>(xss: seq<seq<T>>)
    ensures FlattenList(Nest2(xss)) == Concat(xss)
  {
    if xss != [] {
      assert Nest2(xss).items == [List(Items(xss[0]))] + Nest2(xss[1..]).items;
      FlattenItemsAppend([List(Items(xss[0]))], Nest2(xss[1..]).items);
      FlattenFlat(xss[0]);
      FlattenNest2(xss[1..]);
    }
  }

  /** The check `text != flatten_list(text)` of `draw_str`: a list equals its
      own flattening exactly when none of its items is itself a list. */
  lemma {:induction false} FlatCheckIff<T>(items: seq<Nested<T>>)
    ensures items == Items(FlattenItems(items)) <==> forall i :: 0 <= i < |items| ==> items[i].Item?
  {
    if forall i :: 0 <= i < |items| ==> items[i].Item? {
      var vs := seq(|items|, i requires 0 <= i < |items| => items[i].value);
      assert items == Items(vs);
      FlattenFlat(vs);
    }
  }

  /** The chunks of `text` of `group` characters each, the last one shorter. */
  function Chunks(text: string, group: nat): seq<string>
    requires group > 0
    decreases |text|
  {
    if |text| == 0 then []
    else if |text| <= group then [text]
    else [text[..group]] + Chunks(text[group..], group)
  }

  /** `chunk_split`: `[text[i:i+group] for i in range(0, len(text), group)]`.
      A zero step makes `range` raise; a negative step gives an empty range. */
  function ChunkSplit(text: string, group: int): (r: Result<seq<string>>)
    ensures r.Failure? <==> group == 0
    ensures r.Failure? ==> r.error == InvalidWidth
    ensures group < 0 ==> r == Success([])
    ensures group > 0 ==> r == Success(Chunks(text, group))
  {
    if group == 0 then Failure(InvalidWidth)
    else if group < 0 then Success([])
    else Success(Chunks(text, group))
  }

  /** Cutting into chunks loses and reorders nothing. */
  lemma {:induction false} ChunksConcat(text: string, group: nat)
    requires group > 0
    ensures Concat(Chunks(text, group)) == text
    decreases |text|
  {
    if |text| > group {
      ChunksConcat(text[group..], group);
      assert text == text[..group] + text[group..];
    }
  }

  /** Every chunk but the last has exactly `group` characters and the last
      has 1 to `group`. */
  lemma {:induction false} ChunksSizes(text: string, group: nat)
    requires group > 0
    ensures var cs := Chunks(text, group);
      && (forall i :: 0 <= i < |cs| - 1 ==> |cs[i]| == group)
      && (|cs| > 0 ==> 1 <= |cs[|cs| - 1]| <= group)
    decreases |text|
  {
    if |text| > group {
      ChunksSizes(text[group..], group);
    }
  }

  /** There are ceil(|text| / group) chunks: none for the empty string, and
      otherwise the fewest whose total capacity covers the text. */
  lemma {:induction false} ChunksCount(text: string, group: nat)
    requires group > 0
    ensures var n := |Chunks(text, group)|;
      && (|text| == 0 <==> n == 0)
      && (n > 0 ==> (n - 1) * group < |text| <= n * group)
    decreases |text|
  {
    if |text| > group {
      ChunksCount(text[group..], group);
      var n' := |Chunks(text[group..], group)|;
      assert (n' + 1) * group == n' * group + group;
      assert n' * group == (n' - 1) * group + group;
    }
  }

  /** The recursive `Chunks` is the comprehension of the source: chunk `i` is
      the slice `text[i*group : i*group + group]`, clipped at the end. */
  lemma {:induction false} ChunkAt(text: string, group: nat, i: nat)
    requires group > 0
    requires i < |Chunks(text, group)|
    ensures i * group < |text|
    ensures Chunks(text, group)[i] ==
      text[i * group .. if i * group + group <= |text| then i * group + group else |text|]
    decreases |text|
  {
    if i > 0 {
      var tail := text[group..];
      ChunkAt(tail, group, i - 1);
      var k := (i - 1) * group;
      assert i * group == k + group;
      var e := if k + group <= |tail| then k + group else |tail|;
      assert Chunks(text, group)[i] == tail[k..e];
      assert tail[k..e] == text[group + k..group + e];
    }
  }
}
