/**
 * karnauhova's column sums (S1/count_sum.cpp): a list of named lists of
 * `unsigned long long`, read as columns. Column c (counted from 1) holds
 * the c-th element of every list, a list too short for it counting as 0;
 * `count_lists` adds up every column, refusing a sum that would pass
 * ULLONG_MAX, gathers the sums in a `Fwd_list` with push_front, reverses
 * it and writes the sums out in column order.
 *
 * The named lists are passed by value and only read, so they are values
 * here; the sums list is the heap list of the ForwardList module. What is
 * written to the stream is modelled as the sequence of numbers written.
 */
module ColumnSums {
  import opened Wrappers
  import opened CppInt
  import FL = ForwardList

  /** One entry of the input: a name and its list of numbers. */
  datatype Named = Named(name: string, values: seq<ULong>)

  /**
   * element_lists, read as the walk it performs: stop on the element the
   * walk is at when index has counted down to 1 (or is already below it),
   * and give 0 when the list runs out first.
   */
  function Element(list: seq<ULong>, index: nat): ULong
  {
    if list == [] then 0
    else if index <= 1 then list[0]
    else Element(list[1..], index - 1)
  }

  /**
   * What the walk finds: for an index from 1 on, the element at that
   * position counted from 1, or 0 past the end; index 0 gives the first
   * element, like index 1.
   */
  lemma {:induction false} ElementAt(list: seq<ULong>, index: nat)
    ensures 1 <= index <= |list| ==> Element(list, index) == list[index - 1]
    ensures index > |list| ==> Element(list, index) == 0
    ensures index == 0 && list != [] ==> Element(list, index) == list[0]
    decreases index
  {
    if list != [] && index > 1 {
      ElementAt(list[1..], index - 1);
    }
  }

  /**
   * element_lists: advance an iterator from the first element while it is
   * not at the end and the counter, starting at 1, is below index.
   */
  method ElementLists(list: seq<ULong>, index: nat) returns (r: ULong)
    ensures r == Element(list, index)
  {
    var count := 1;
    var it := 0;
    while it < |list| && count < index
      invariant 0 <= it <= |list| && count == it + 1
      invariant it == 0 || it < index
      invariant Element(list, index) == Element(list[it..], index - it)
      decreases |list| - it
    {
      assert list[it..][1..] == list[it + 1..];
      it := it + 1;
      count := count + 1;
    }
    if it == |list| {
      return 0;
    }
    r := list[it];
  }

  /** The full sum of column col over the first k lists. */
  function ColumnSum(l: seq<Named>, k: nat, col: nat): nat
    requires k <= |l|
  {
    if k == 0 then 0 else ColumnSum(l, k - 1, col) + Element(l[k - 1].values, col)
  }

  /** Adding more lists never makes a column sum smaller. */
  lemma {:induction false} ColumnSumGrows(l: seq<Named>, j: nat, k: nat, col: nat)
    requires j <= k <= |l|
    ensures ColumnSum(l, j, col) <= ColumnSum(l, k, col)
    decreases k
  {
    if j < k {
      ColumnSumGrows(l, j, k - 1, col);
    }
  }

  /** The length of the longest list. */
  function Longest(l: seq<Named>): (n: nat)
    ensures forall k :: 0 <= k < |l| ==> |l[k].values| <= n
    ensures l == [] || exists k :: 0 <= k < |l| && |l[k].values| == n
  {
    if l == [] then 0
    else
      var rest := Longest(l[1..]);
      assert forall k :: 1 <= k < |l| ==> l[k] == l[1..][k - 1];
      if |l[0].values| >= rest then |l[0].values| else rest
  }

  /** A column past the longest list sums to 0. */
  lemma {:induction false} BeyondLongest(l: seq<Named>, k: nat, col: nat)
    requires k <= |l| && col > Longest(l)
    ensures ColumnSum(l, k, col) == 0
    decreases k
  {
    if k > 0 {
      BeyondLongest(l, k - 1, col);
      ElementAt(l[k - 1].values, col);
    }
  }

  /** Every column from 1 to n sums to at most ULLONG_MAX. */
  ghost predicate AllFit(l: seq<Named>, n: nat)
  {
    forall col :: 1 <= col <= n ==> ColumnSum(l, |l|, col) <= ULLONG_MAX
  }

  /**
   * The inner loop of count_lists for column col: add the col-th element
   * of each list to a running sum, throwing logic_error("Incorrect sum")
   * as soon as the addition would pass ULLONG_MAX (the test
   * `ULLONG_MAX - element < sum` cannot itself wrap, since element is at
   * most ULLONG_MAX).
   */
  method SumColumn(l: seq<Named>, col: nat) returns (r: Result<ULong>)
    ensures r.Ok? <==> ColumnSum(l, |l|, col) <= ULLONG_MAX
    ensures r.Ok? ==> r.value == ColumnSum(l, |l|, col)
    ensures r.Err? ==> r.message == "Incorrect sum"
  {
    var sum: ULong := 0;
    var k := 0;
    while k < |l|
      invariant k <= |l| && sum == ColumnSum(l, k, col)
    {
      var element := ElementLists(l[k].values, col);
      if ULLONG_MAX - element < sum {
        ColumnSumGrows(l, k + 1, |l|, col);
        return Err("Incorrect sum");
      }
      sum := sum + element;
      k := k + 1;
    }
    r := Ok(sum);
  }

  /**
   * The output loop of count_lists: write the front of sums, then step an
   * iterator along the next n - 1 nodes writing each one's data. The
   * numbers written are the list's contents.
   */
  method Written(sums: FL.ForwardList<ULong>, n: nat) returns (out: seq<ULong>)
    requires sums.Valid() && n == |sums.Contents| && n > 0
    ensures out == sums.Contents
  {
    out := [sums.Front()];
    var it := sums.fake.next.next;
    var i := 1;
    while i < n
      invariant 1 <= i <= n && it == FL.NodeAt(sums.nodes, sums.fake, i)
      invariant |out| == i && forall c :: 0 <= c < i ==> out[c] == sums.Contents[c]
    {
      out := out + [it.data];
      it := it.next;
      i := i + 1;
    }
  }

  /**
   * The outer loop of count_lists: for columns 1 to n in turn, sum the
   * column and push the sum onto the front of a new list, so that the list
   * ends with column 1; or the logic_error of the first column whose sum
   * does not fit.
   */
  method PushColumnSums(l: seq<Named>, n: nat) returns (r: Result<FL.ForwardList<ULong>>)
    ensures r.Ok? <==> AllFit(l, n)
    ensures r.Ok? ==> r.value.Valid() && fresh(r.value.Repr)
    ensures r.Ok? ==> |r.value.Contents| == n
    ensures r.Ok? ==> forall c :: 0 <= c < n ==> r.value.Contents[c] == ColumnSum(l, |l|, n - c)
    ensures r.Err? ==> r.message == "Incorrect sum"
  {
    var sums := new FL.ForwardList<ULong>();
    var i := 0;
    while i < n
      invariant i <= n
      invariant sums.Valid() && fresh(sums.Repr) && |sums.Contents| == i
      invariant forall c :: 0 <= c < i ==> sums.Contents[c] == ColumnSum(l, |l|, i - c)
      invariant AllFit(l, i)
    {
      var column := SumColumn(l, i + 1);
      if column.Err? {
        return Err(column.message);
      }
      sums.PushFront(column.value);
      i := i + 1;
    }
    r := Ok(sums);
  }

  /**
   * count_lists with max_length given (the code computes it with
   * max_lenght, which is not part of this model). Returns the numbers
   * written out: "0" alone when max_length is 0, otherwise the sums of
   * columns 1 to max_length in that order; or the logic_error thrown as
   * soon as a running column sum would pass ULLONG_MAX.
   */
  method CountLists(l: seq<Named>, maxLength: nat) returns (r: Result<seq<ULong>>)
    ensures maxLength == 0 ==> r == Ok([0])
    ensures maxLength > 0 ==> (r.Ok? <==> AllFit(l, maxLength))
    ensures maxLength > 0 && r.Ok? ==>
              |r.value| == maxLength && forall c :: 0 <= c < maxLength ==> r.value[c] == ColumnSum(l, |l|, c + 1)
    ensures r.Err? ==> r.message == "Incorrect sum"
  {
    if maxLength == 0 {
      return Ok([0]);
    }
    var pushed := PushColumnSums(l, maxLength);
    if pushed.Err? {
      return Err(pushed.message);
    }
    var sums := pushed.value;
    sums.Reverse();
    var out := Written(sums, maxLength);
    return Ok(out);
  }

  /**
   * count_lists with max_length the length of the longest list, which is
   * what max_lenght evidently computes: "0" alone exactly when every list
   * is empty; otherwise the error exactly when some column, of any index,
   * does not fit, and else one sum per column of the longest list.
   */
  method CountListsOfLongest(l: seq<Named>) returns (r: Result<seq<ULong>>)
    ensures Longest(l) == 0 <==> forall k :: 0 <= k < |l| ==> l[k].values == []
    ensures Longest(l) == 0 ==> r == Ok([0])
    ensures r.Err? <==> exists col :: 1 <= col && ColumnSum(l, |l|, col) > ULLONG_MAX
    ensures r.Ok? && Longest(l) > 0 ==>
              |r.value| == Longest(l) && forall c :: 0 <= c < Longest(l) ==> r.value[c] == ColumnSum(l, |l|, c + 1)
    ensures r.Err? ==> r.message == "Incorrect sum"
  {
    r := CountLists(l, Longest(l));
    if r.Err? {
      assert !AllFit(l, Longest(l));
      assert exists c :: 1 <= c && ColumnSum(l, |l|, c) > ULLONG_MAX;
    } else {
      forall col | 1 <= col
        ensures ColumnSum(l, |l|, col) <= ULLONG_MAX
      {
        if col > Longest(l) {
          BeyondLongest(l, |l|, col);
        }
      }
      assert !exists c :: 1 <= c && ColumnSum(l, |l|, c) > ULLONG_MAX;
    }
  }
}
