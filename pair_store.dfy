/** The pure part of the password -> message pair store: the records, the
    first-match lookup behind "Göster" (reveal), the substring filter behind
    the list view, and the splice that deletes one record. */
module PairStore {

  datatype Option<+T> = None | Some(value: T)

  /** One stored mapping `{pw, msg}`: a password and the message it reveals. */
  datatype Pair = Pair(pw: string, msg: string)

  /** Shown by reveal when the matching record has an empty message. */
  const EmptyMessageText: string := "(mesaj boş)"
  /** Shown by reveal when no record has the queried password. */
  const NoMatchText: string := "Eşleşen mesaj bulunamadı."

  // ---------------------------------------------------------------------
  // Substring search, as JavaScript's String.prototype.includes
  // ---------------------------------------------------------------------

  predicate IsPrefix(p: string, s: string) {
    |p| <= |s| && s[..|p|] == p
  }

  /** `s.includes(needle)`: some suffix of `s` starts with `needle`. */
  predicate Includes(s: string, needle: string)
    decreases |s|
  {
    IsPrefix(needle, s) || (|s| > 0 && Includes(s[1..], needle))
  }

  /** `needle` sits in `s` starting at position `k`. */
  predicate OccursAt(s: string, needle: string, k: int) {
    0 <= k && k + |needle| <= |s| && s[k..k + |needle|] == needle
  }

  /** The recursive search finds `needle` exactly when it occurs at some position. */
  lemma {:induction false} IncludesIffOccurs(s: string, needle: string)
    ensures Includes(s, needle) <==> exists k :: OccursAt(s, needle, k)
    decreases |s|
  {
    if |s| > 0 {
      IncludesIffOccurs(s[1..], needle);
    }
    if Includes(s, needle) {
      if IsPrefix(needle, s) {
        assert OccursAt(s, needle, 0);
      } else {
        var k :| OccursAt(s[1..], needle, k);
        assert s[1..][k..k + |needle|] == s[k + 1..k + 1 + |needle|];
        assert OccursAt(s, needle, k + 1);
      }
    }
    if exists k :: OccursAt(s, needle, k) {
      var k :| OccursAt(s, needle, k);
      if k == 0 {
        assert IsPrefix(needle, s);
      } else {
        assert s[1..][k - 1..k - 1 + |needle|] == s[k..k + |needle|];
        assert OccursAt(s[1..], needle, k - 1);
      }
    }
  }

  // ---------------------------------------------------------------------
  // Reveal: pairs.find(p => p.pw === passwordInput)
  // ---------------------------------------------------------------------

  /** Index of the first record whose password equals `query` exactly. */
  function FirstMatch(pairs: seq<Pair>, query: string): (r: Option<nat>)
    ensures r.Some? ==> r.value < |pairs| && pairs[r.value].pw == query
    ensures r.Some? ==> forall j :: 0 <= j < r.value ==> pairs[j].pw != query
    ensures r.None? <==> forall j :: 0 <= j < |pairs| ==> pairs[j].pw != query
  {
    if pairs == [] then None
    else if pairs[0].pw == query then Some(0)
    else
      match FirstMatch(pairs[1..], query)
      case None => None
      case Some(i) => Some(i + 1)
  }

  /** `found.msg || "(mesaj boş)"`: an empty message is replaced by the placeholder. */
  function Shown(msg: string): string {
    if msg == "" then EmptyMessageText else msg
  }

  /** The text reveal displays for `query`: the first matching record's
      message (or the placeholder), or the no-match sentinel. */
  function RevealText(pairs: seq<Pair>, query: string): (r: string)
    ensures r != ""
    ensures (forall j :: 0 <= j < |pairs| ==> pairs[j].pw != query) ==> r == NoMatchText
    ensures forall i :: 0 <= i < |pairs| && pairs[i].pw == query &&
                        (forall j :: 0 <= j < i ==> pairs[j].pw != query) ==>
                          r == (if pairs[i].msg == "" then EmptyMessageText else pairs[i].msg)
  {
    match FirstMatch(pairs, query)
    case None => NoMatchText
    case Some(i) => Shown(pairs[i].msg)
  }

  /** Appending a record makes its password reveal its message, unless an
      earlier record already has the same password: the first match wins. */
  lemma RevealAfterAppend(pairs: seq<Pair>, p: Pair)
    ensures (forall j :: 0 <= j < |pairs| ==> pairs[j].pw != p.pw) ==>
              RevealText(pairs + [p], p.pw) == Shown(p.msg)
    ensures (exists j :: 0 <= j < |pairs| && pairs[j].pw == p.pw) ==>
              RevealText(pairs + [p], p.pw) == RevealText(pairs, p.pw)
  {
    var s := pairs + [p];
    match FirstMatch(pairs, p.pw)
    case None =>
      assert s[|pairs|].pw == p.pw;
    case Some(i) =>
      RevealStableUnderAppend(pairs, p, p.pw);
  }

  /** Appending a record never changes what an already-matched query reveals. */
  lemma RevealStableUnderAppend(pairs: seq<Pair>, p: Pair, query: string)
    requires exists j :: 0 <= j < |pairs| && pairs[j].pw == query
    ensures RevealText(pairs + [p], query) == RevealText(pairs, query)
  {
    var s := pairs + [p];
    var i := FirstMatch(pairs, query).value;
    assert s[i] == pairs[i];
    assert forall j :: 0 <= j < i ==> s[j] == pairs[j];
  }

  // ---------------------------------------------------------------------
  // The filtered list view
  // ---------------------------------------------------------------------

  /** The callback of `pairs.filter`: an empty filter keeps everything,
      otherwise the filter must occur in the password or in the message. */
  predicate Matches(filter: string, p: Pair) {
    filter == "" || Includes(p.pw, filter) || Includes(p.msg, filter)
  }

  /** A row of the list view: the record and its index in `pairs`, which is
      what `pairs.indexOf(p)` recovers through object identity. */
  datatype Entry = Entry(index: nat, pair: Pair)

  /** The reference definition: JavaScript's `pairs.filter(...)`, front to back. */
  function FilterPairs(pairs: seq<Pair>, filter: string): seq<Pair> {
    if pairs == [] then []
    else (if Matches(filter, pairs[0]) then [pairs[0]] else []) + FilterPairs(pairs[1..], filter)
  }

  /** The list view: the matching records in order, each tagged with its
      original index. */
  function Visible(pairs: seq<Pair>, filter: string): (view: seq<Entry>)
    ensures |view| <= |pairs|
    ensures forall k :: 0 <= k < |view| ==>
              view[k].index < |pairs| && pairs[view[k].index] == view[k].pair &&
              Matches(filter, view[k].pair)
    ensures forall k, l :: 0 <= k < l < |view| ==> view[k].index < view[l].index
  {
    if pairs == [] then []
    else
      var n := |pairs| - 1;
      Visible(pairs[..n], filter) + (if Matches(filter, pairs[n]) then [Entry(n, pairs[n])] else [])
  }

  /** The records shown by a view, without their indices. */
  function Records(view: seq<Entry>): (r: seq<Pair>)
    ensures |r| == |view|
    ensures forall k :: 0 <= k < |view| ==> r[k] == view[k].pair
  {
    if view == [] then [] else [view[0].pair] + Records(view[1..])
  }

  /** Every matching record appears in the view, under its own index. */
  lemma VisibleComplete(pairs: seq<Pair>, filter: string, i: nat)
    requires i < |pairs|
    ensures Matches(filter, pairs[i]) <==>
              exists k :: 0 <= k < |Visible(pairs, filter)| && Visible(pairs, filter)[k].index == i
  {
    // The converse is part of the contract of Visible.
    if Matches(filter, pairs[i]) {
      var k := RowIndex(pairs, filter, i);
    }
  }

  /** The row of the view that shows the matching record `i`. */
  lemma {:induction false} RowIndex(pairs: seq<Pair>, filter: string, i: nat) returns (k: nat)
    requires i < |pairs| && Matches(filter, pairs[i])
    ensures k < |Visible(pairs, filter)| && Visible(pairs, filter)[k].index == i
    decreases |pairs|
  {
    var view := Visible(pairs, filter);
    var n := |pairs| - 1;
    var front := Visible(pairs[..n], filter);
    assert view == front + (if Matches(filter, pairs[n]) then [Entry(n, pairs[n])] else []);
    if i < n {
      assert pairs[..n][i] == pairs[i];
      k := RowIndex(pairs[..n], filter, i);
      assert view[k] == front[k];
    } else {
      k := |front|;
    }
  }

  /** With an empty filter the view is the whole list, at its own indices. */
  lemma {:induction false} VisibleEmptyFilter(pairs: seq<Pair>)
    ensures |Visible(pairs, "")| == |pairs|
    ensures forall k :: 0 <= k < |pairs| ==> Visible(pairs, "")[k] == Entry(k, pairs[k])
    decreases |pairs|
  {
    var view := Visible(pairs, "");
    if pairs != [] {
      var n := |pairs| - 1;
      var front := Visible(pairs[..n], "");
      VisibleEmptyFilter(pairs[..n]);
      assert Matches("", pairs[n]);
      assert view == front + [Entry(n, pairs[n])];
      forall k | 0 <= k < |pairs|
        ensures view[k] == Entry(k, pairs[k])
      {
        if k < n {
          assert view[k] == front[k];
          assert pairs[..n][k] == pairs[k];
        }
      }
    }
  }

  /** With an empty filter the list view shows every record, in order. */
  lemma EmptyFilterShowsAll(pairs: seq<Pair>)
    ensures Records(Visible(pairs, "")) == pairs
  {
    VisibleEmptyFilter(pairs);
    var r := Records(Visible(pairs, ""));
    assert forall k :: 0 <= k < |pairs| ==> r[k] == pairs[k];
  }

  /** The reference filter distributes over concatenation. */
  lemma {:induction false} FilterConcat(a: seq<Pair>, b: seq<Pair>, filter: string)
    ensures FilterPairs(a + b, filter) == FilterPairs(a, filter) + FilterPairs(b, filter)
    decreases |a|
  {
    if a != [] {
      assert (a + b)[1..] == a[1..] + b;
      FilterConcat(a[1..], b, filter);
    } else {
      assert a + b == b;
    }
  }

  /** Dropping the indices from the view gives exactly `pairs.filter(...)`. */
  lemma {:induction false} VisibleRecords(pairs: seq<Pair>, filter: string)
    ensures Records(Visible(pairs, filter)) == FilterPairs(pairs, filter)
    decreases |pairs|
  {
    if pairs != [] {
      var n := |pairs| - 1;
      var front := Visible(pairs[..n], filter);
      var last := if Matches(filter, pairs[n]) then [Entry(n, pairs[n])] else [];
      assert Visible(pairs, filter) == front + last;
      assert Records(front) == FilterPairs(pairs[..n], filter) by {
        VisibleRecords(pairs[..n], filter);
      }
      assert Records(last) == FilterPairs([pairs[n]], filter) by {
        assert [pairs[n]][1..] == [];
      }
      assert FilterPairs(pairs, filter) == FilterPairs(pairs[..n], filter) + FilterPairs([pairs[n]], filter) by {
        assert pairs == pairs[..n] + [pairs[n]];
        FilterConcat(pairs[..n], [pairs[n]], filter);
      }
      RecordsConcat(front, last);
    }
  }

  lemma RecordsConcat(u: seq<Entry>, v: seq<Entry>)
    ensures Records(u + v) == Records(u) + Records(v)
  {
    var r, ru, rv := Records(u + v), Records(u), Records(v);
    assert |r| == |ru + rv|;
    forall k | 0 <= k < |r|
      ensures r[k] == (ru + rv)[k]
    {
      if k < |u| {
        assert (u + v)[k] == u[k];
      } else {
        assert (u + v)[k] == v[k - |u|];
      }
    }
  }

  /** The view of a prefix is a prefix of the view; the rest of the view
      holds only later indices. */
  lemma {:induction false} VisiblePrefix(pairs: seq<Pair>, filter: string, m: nat)
    requires m <= |pairs|
    ensures var view := Visible(pairs, filter);
            var front := Visible(pairs[..m], filter);
            |front| <= |view| && view[..|front|] == front &&
            forall k :: |front| <= k < |view| ==> m <= view[k].index
    decreases |pairs|
  {
    if m < |pairs| {
      var n := |pairs| - 1;
      VisiblePrefix(pairs[..n], filter, m);
      assert pairs[..n][..m] == pairs[..m];
    } else {
      assert pairs[..m] == pairs;
    }
  }

  // ---------------------------------------------------------------------
  // Delete: copy.splice(i, 1)
  // ---------------------------------------------------------------------

  /** `pairs` with the record at `i` removed; later records shift down by one. */
  function RemoveAt(pairs: seq<Pair>, i: nat): (r: seq<Pair>)
    requires i < |pairs|
    ensures |r| == |pairs| - 1
    ensures forall j :: 0 <= j < i ==> r[j] == pairs[j]
    ensures forall j :: i <= j < |r| ==> r[j] == pairs[j + 1]
  {
    pairs[..i] + pairs[i + 1..]
  }

  /** Row `k` of the view comes right after the rows of the records that
      precede its own record. */
  lemma ViewPosition(pairs: seq<Pair>, filter: string, k: nat)
    requires k < |Visible(pairs, filter)|
    ensures Visible(pairs, filter)[k].index <= |pairs|
    ensures |Visible(pairs[..Visible(pairs, filter)[k].index], filter)| == k
  {
    var view := Visible(pairs, filter);
    var i := view[k].index;
    var front := Visible(pairs[..i], filter);
    VisiblePrefix(pairs, filter, i);
    assert forall p :: 0 <= p < |front| ==> view[p] == front[p] && front[p].index < i;
    assert |front| <= k;
    assert i <= view[|front|].index;
  }

  /** Around a matching record, the reference filter splits into the part
      before it, the record itself and the part after it. */
  lemma FilterAround(pairs: seq<Pair>, filter: string, i: nat)
    requires i < |pairs| && Matches(filter, pairs[i])
    ensures FilterPairs(pairs, filter)
            == FilterPairs(pairs[..i], filter) + [pairs[i]] + FilterPairs(pairs[i + 1..], filter)
    ensures FilterPairs(RemoveAt(pairs, i), filter)
            == FilterPairs(pairs[..i], filter) + FilterPairs(pairs[i + 1..], filter)
  {
    assert pairs == pairs[..i] + ([pairs[i]] + pairs[i + 1..]);
    FilterConcat(pairs[..i], [pairs[i]] + pairs[i + 1..], filter);
    FilterConcat([pairs[i]], pairs[i + 1..], filter);
    assert FilterPairs([pairs[i]], filter) == [pairs[i]] by {
      assert [pairs[i]][1..] == [];
    }
    FilterConcat(pairs[..i], pairs[i + 1..], filter);
  }

  /** Removing the element that follows the prefix `left` leaves `left + right`. */
  lemma RemoveAtJoin(left: seq<Pair>, x: Pair, right: seq<Pair>)
    ensures RemoveAt(left + [x] + right, |left|) == left + right
  {
    var s := left + [x] + right;
    assert s[..|left|] == left;
    assert s[|left| + 1..] == right;
  }

  /** Deleting through row `k` of the view removes exactly that row from the
      view and leaves every other row's record, in order. */
  lemma DeleteFromView(pairs: seq<Pair>, filter: string, k: nat)
    requires k < |Visible(pairs, filter)|
    ensures Records(Visible(RemoveAt(pairs, Visible(pairs, filter)[k].index), filter))
            == RemoveAt(Records(Visible(pairs, filter)), k)
  {
    var view := Visible(pairs, filter);
    var i := view[k].index;
    var left := FilterPairs(pairs[..i], filter);
    var right := FilterPairs(pairs[i + 1..], filter);
    assert Matches(filter, pairs[i]);
    FilterAround(pairs, filter, i);
    assert |left| == k by {
      ViewPosition(pairs, filter, k);
      VisibleRecords(pairs[..i], filter);
    }
    assert Records(view) == left + [pairs[i]] + right by {
      VisibleRecords(pairs, filter);
    }
    assert Records(Visible(RemoveAt(pairs, i), filter)) == left + right by {
      VisibleRecords(RemoveAt(pairs, i), filter);
    }
    RemoveAtJoin(left, pairs[i], right);
  }
}
