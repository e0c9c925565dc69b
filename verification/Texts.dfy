/** Lists of texts written as one, with a separator between them. */
module Texts {
  function Join<T>(bar: T, parts: seq<seq<T>>): seq<T> {
    if |parts| == 0 then []
    else if |parts| == 1 then parts[0]
    else parts[0] + [bar] + Join(bar, parts[1..])
  }

  ghost predicate Plain<T>(bar: T, parts: seq<seq<T>>) {
    forall i :: 0 <= i < |parts| ==> bar !in parts[i]
  }

  lemma {:induction false} FirstBar<T>(bar: T, a: seq<T>, rest: seq<T>, b: seq<T>, more: seq<T>)
    requires bar !in a && bar !in b && a + [bar] + rest == b + [bar] + more
    ensures a == b && rest == more
  {
    var left, right := a + [bar] + rest, b + [bar] + more;
    assert left[|a|] == bar && right[|b|] == bar;
    assert forall k :: 0 <= k < |a| ==> left[k] == a[k] != bar;
    assert forall k :: 0 <= k < |b| ==> right[k] == b[k] != bar;
    assert a == left[..|a|] && b == right[..|b|];
    assert rest == left[|a| + 1..] && more == right[|b| + 1..];
  }

  lemma {:induction false} BarInJoin<T>(bar: T, parts: seq<seq<T>>)
    requires Plain(bar, parts)
    ensures bar in Join(bar, parts) <==> |parts| > 1
  {
    if |parts| > 1 { assert Join(bar, parts)[|parts[0]|] == bar; }
  }

  /** Texts without the separator are told apart by their joined text. */
  lemma {:induction false} JoinDetermines<T>(bar: T, a: seq<seq<T>>, b: seq<seq<T>>)
    requires a != [] && b != [] && Plain(bar, a) && Plain(bar, b) && Join(bar, a) == Join(bar, b)
    ensures a == b
  {
    BarInJoin(bar, a);
    BarInJoin(bar, b);
    if |a| == 1 {
      assert a == [a[0]] && b == [b[0]];
    } else {
      FirstBar(bar, a[0], Join(bar, a[1..]), b[0], Join(bar, b[1..]));
      JoinDetermines(bar, a[1..], b[1..]);
      assert a == [a[0]] + a[1..] && b == [b[0]] + b[1..];
    }
  }

  lemma {:induction false} PartsAreNoLonger<T>(bar: T, parts: seq<seq<T>>, part: seq<T>)
    requires part in parts
    ensures |part| <= |Join(bar, parts)|
  {
    if |parts| > 1 && part != parts[0] { PartsAreNoLonger(bar, parts[1..], part); }
  }
}
