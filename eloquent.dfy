/** The framework behaviour the category lifecycle relies on, spelled out:
    PHP truthiness of request values, mass assignment through a fillable
    list, `where name like '%key%'` as substring containment, `orderBy('id',
    'DESC')` over a table keyed by id, and `paginate` as a slice. */
module Eloquent {

  datatype Option<T> = None | Some(value: T)

  /** A request string is truthy in PHP unless it is empty or "0"
      (an absent parameter reads as the empty string here). */
  predicate Truthy(s: string) {
    s != "" && s != "0"
  }

  /** `key` occurs in `s` at some position. */
  predicate IsSubstring(key: string, s: string) {
    exists i | 0 <= i <= |s| - |key| :: key <= s[i..]
  }

  /** The characters PHP's `trim` strips by default: space, tab, newline,
      carriage return, NUL and vertical tab. */
  const TrimmedChars: set<char> := {' ', '\t', '\n', '\r', 0 as char, 11 as char}

  /** A string that trims to empty; the `required` rule rejects it. */
  predicate IsBlank(s: string) {
    forall i :: 0 <= i < |s| ==> s[i] in TrimmedChars
  }

  /** Mass assignment: only the attributes named in `fillable` survive. */
  function Fill<V>(fillable: set<string>, input: map<string, V>): (attrs: map<string, V>)
    ensures attrs.Keys == input.Keys * fillable
    ensures forall k :: k in attrs ==> attrs[k] == input[k]
  {
    map k | k in input && k in fillable :: input[k]
  }

  /** Two inputs that agree on the fillable attributes fill the same. */
  lemma FillIgnoresOthers<V>(fillable: set<string>, input: map<string, V>, k: string, v: V)
    requires k !in fillable
    ensures Fill(fillable, input[k := v]) == Fill(fillable, input)
  {
    assert Fill(fillable, input[k := v]).Keys == Fill(fillable, input).Keys;
  }

  /** `a` can be obtained from `b` by dropping elements, keeping order. */
  predicate IsSubsequence<T(==)>(a: seq<T>, b: seq<T>)
    decreases |b|
  {
    if a == [] then true
    else if b == [] then false
    else (a[0] == b[0] && IsSubsequence(a[1..], b[1..])) || IsSubsequence(a, b[1..])
  }

  /** Rows whose ids strictly decrease from first to last. */
  predicate DescendingBy<T>(rows: seq<T>, idOf: T -> int) {
    forall i, j :: 0 <= i < j < |rows| ==> idOf(rows[i]) > idOf(rows[j])
  }

  lemma {:induction false} SubsequenceMembers<T>(a: seq<T>, b: seq<T>)
    requires IsSubsequence(a, b)
    ensures forall x :: x in a ==> x in b
    decreases |b|
  {
    if a != [] {
      if a[0] == b[0] && IsSubsequence(a[1..], b[1..]) {
        SubsequenceMembers(a[1..], b[1..]);
        assert a == [a[0]] + a[1..];
      } else {
        SubsequenceMembers(a, b[1..]);
      }
    }
  }

  /** Filtering keeps the order: a subsequence of a newest-first list is newest-first. */
  lemma {:induction false} SubsequenceKeepsDescending<T>(a: seq<T>, b: seq<T>, idOf: T -> int)
    requires IsSubsequence(a, b)
    requires DescendingBy(b, idOf)
    ensures DescendingBy(a, idOf)
    decreases |b|
  {
    if a != [] {
      assert DescendingBy(b[1..], idOf) by {
        forall i, j | 0 <= i < j < |b[1..]| ensures idOf(b[1..][i]) > idOf(b[1..][j]) {
          assert b[1..][i] == b[i + 1] && b[1..][j] == b[j + 1];
        }
      }
      if a[0] == b[0] && IsSubsequence(a[1..], b[1..]) {
        SubsequenceKeepsDescending(a[1..], b[1..], idOf);
        SubsequenceMembers(a[1..], b[1..]);
        forall i, j | 0 <= i < j < |a| ensures idOf(a[i]) > idOf(a[j]) {
          if i == 0 {
            assert a[j] == a[1..][j - 1];
            assert a[j] in b[1..];
            var m :| 0 <= m < |b[1..]| && b[1..][m] == a[j];
            assert b[m + 1] == a[j];
          } else {
            assert a[i] == a[1..][i - 1] && a[j] == a[1..][j - 1];
          }
        }
      } else {
        SubsequenceKeepsDescending(a, b[1..], idOf);
      }
    }
  }

  /** The rows of `rows` whose name contains `key`, in their original order. */
  function Where<T(==, !new)>(rows: seq<T>, nameOf: T -> string, key: string): (r: seq<T>)
    ensures forall x :: x in r <==> x in rows && IsSubstring(key, nameOf(x))
    ensures IsSubsequence(r, rows)
    decreases |rows|
  {
    if rows == [] then []
    else
      var rest := Where(rows[1..], nameOf, key);
      if IsSubstring(key, nameOf(rows[0])) then [rows[0]] + rest else rest
  }

  /** A model's `ScopeSearch`: the name filter applies only when the request's
      `key` is truthy; otherwise the query is returned as it was. */
  function SearchByName<T(==, !new)>(rows: seq<T>, nameOf: T -> string, key: string): (r: seq<T>)
    ensures !Truthy(key) ==> r == rows
    ensures Truthy(key) ==> forall x :: x in r <==> x in rows && IsSubstring(key, nameOf(x))
    ensures IsSubsequence(r, rows)
  {
    if Truthy(key) then Where(rows, nameOf, key) else SubsequenceReflexive(rows); rows
  }

  lemma {:induction false} SubsequenceReflexive<T>(s: seq<T>)
    ensures IsSubsequence(s, s)
    decreases |s|
  {
    if s != [] {
      SubsequenceReflexive(s[1..]);
    }
  }

  lemma NonEmptyHasMember(s: set<int>)
    requires s != {}
    ensures exists y :: y in s
  {
    if forall x :: x !in s {
      // then s would equal the empty set
      assert false;
    }
  }

  predicate IsLargest(s: set<int>, m: int) {
    m in s && forall x :: x in s ==> x <= m
  }

  /** A non-empty set of ids has a largest element; the proof takes the
      elements out one at a time. */
  lemma {:induction false} LargestExists(s: set<int>)
    requires s != {}
    ensures exists m :: IsLargest(s, m)
    decreases |s|
  {
    NonEmptyHasMember(s);
    var y :| y in s;
    if s == {y} {
      assert IsLargest(s, y);
    } else {
      var smaller := s - {y};
      LargestExists(smaller);
      var rest :| IsLargest(smaller, rest);
      LargestStep(s, y, rest);
    }
  }

  lemma LargestStep(s: set<int>, y: int, rest: int)
    requires y in s && IsLargest(s - {y}, rest)
    ensures IsLargest(s, if y > rest then y else rest)
  {
    assert forall x :: x in s ==> x == y || x in s - {y};
  }

  /** The largest id of a non-empty set of ids. */
  function MaxOf(s: set<int>): (m: int)
    requires s != {}
    ensures m in s && forall x :: x in s ==> x <= m
  {
    LargestExists(s);
    var m :| IsLargest(s, m);
    m
  }

  /** `orderBy('id', 'DESC')`: every id of `s` once, largest first. */
  function IdsDescending(s: set<int>): (r: seq<int>)
    ensures |r| == |s|
    ensures forall x :: x in r <==> x in s
    ensures DescendingBy(r, x => x)
    decreases |s|
  {
    if s == {} then []
    else
      var m := MaxOf(s);
      [m] + IdsDescending(s - {m})
  }

  /** The page the paginator serves: the requested one, or the first when the
      request asks for a page below 1. */
  function CurrentPage(page: int): (p: int)
    ensures p >= 1
    ensures page >= 1 ==> p == page
  {
    if page >= 1 then page else 1
  }

  function Min(a: int, b: int): int {
    if a <= b then a else b
  }

  /** The number of rows before page `page`. */
  function PageStart(perPage: nat, page: int): (start: nat)
  {
    (CurrentPage(page) - 1) * perPage
  }

  /** `paginate(perPage)`: page `page` of `rows`, that is, the `perPage` rows
      that follow the first `(page - 1) * perPage`. */
  function Paginate<T>(rows: seq<T>, perPage: nat, page: int): (r: seq<T>)
    requires perPage >= 1
    ensures var start := PageStart(perPage, page);
            && |r| == (if start >= |rows| then 0 else Min(perPage, |rows| - start))
            && forall i :: 0 <= i < |r| ==> start + i < |rows| && r[i] == rows[start + i]
  {
    var start := PageStart(perPage, page);
    if start >= |rows| then [] else rows[start..Min(start + perPage, |rows|)]
  }

  /** A page holds only rows of the list. */
  lemma PageMembers<T>(rows: seq<T>, perPage: nat, page: int)
    requires perPage >= 1
    ensures forall x :: x in Paginate(rows, perPage, page) ==> x in rows
  {
    var r := Paginate(rows, perPage, page);
    var start := PageStart(perPage, page);
    forall x | x in r ensures x in rows {
      var i :| 0 <= i < |r| && r[i] == x;
      assert start + i < |rows| && rows[start + i] == x;
    }
  }

  /** The page that shows row `i` of a listing, and the row's place on it. */
  function PagePosition(i: nat, perPage: nat): (pos: (int, nat))
    requires perPage >= 1
    ensures pos.0 >= 1 && pos.1 < perPage
    ensures i == (pos.0 - 1) * perPage + pos.1
    decreases i
  {
    if i < perPage then (1, i)
    else
      var pos := PagePosition(i - perPage, perPage);
      assert (pos.0 + 1 - 1) * perPage == (pos.0 - 1) * perPage + perPage;
      (pos.0 + 1, pos.1)
  }

  /** Pages cover the list: row `i` appears, at the place `PagePosition`
      gives, on the page it names. */
  lemma PageOfPosition<T>(rows: seq<T>, perPage: nat, i: nat)
    requires perPage >= 1
    requires i < |rows|
    ensures var pos := PagePosition(i, perPage);
            var page := Paginate(rows, perPage, pos.0);
            pos.1 < |page| && page[pos.1] == rows[i]
  {
    var pos := PagePosition(i, perPage);
    assert CurrentPage(pos.0) == pos.0;
    assert PageStart(perPage, pos.0) + pos.1 == i;
  }

  /** A page of a newest-first list is newest-first. */
  lemma PageKeepsDescending<T>(rows: seq<T>, perPage: nat, page: int, idOf: T -> int)
    requires perPage >= 1
    requires DescendingBy(rows, idOf)
    ensures DescendingBy(Paginate(rows, perPage, page), idOf)
  {
    var r := Paginate(rows, perPage, page);
    var start := PageStart(perPage, page);
    SliceKeepsDescending(rows, r, start, idOf);
  }

  lemma SliceKeepsDescending<T>(rows: seq<T>, r: seq<T>, start: int, idOf: T -> int)
    requires DescendingBy(rows, idOf)
    requires start >= 0
    requires forall i :: 0 <= i < |r| ==> start + i < |rows| && r[i] == rows[start + i]
    ensures DescendingBy(r, idOf)
  {
    forall i, j | 0 <= i < j < |r| ensures idOf(r[i]) > idOf(r[j]) {
      var x, y := r[i], r[j];
      assert start + i < |rows| && start + j < |rows|;
      assert x == rows[start + i] && y == rows[start + j];
    }
  }
}
