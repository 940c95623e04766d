/** `QString::arg(const QString &a)` as Qt documents it: the lowest-numbered
    place marker (`%` and one or two digits, `%0` to `%99`, optionally
    written `%L1`) is replaced by `a` wherever it occurs; every other marker
    is kept; a string without a marker is returned unchanged.  The text
    that `a` brings in is not scanned again by the same call, but it is by
    a later chained `arg`. */
module QStringArg {
  import opened Wrappers

  predicate IsDigit(c: char) { '0' <= c <= '9' }

  function DigitValue(c: char): nat
    requires IsDigit(c)
  {
    c as int - '0' as int
  }

  /** The place marker at the head of `s`, as its number and its length:
      `%`, an optional `L`, then one or two digits. */
  function MarkerAt(s: string): (r: Option<(nat, nat)>)
    ensures r.Some? ==> 2 <= r.value.1 <= |s| && s[0] == '%'
    ensures |s| > 0 && s[0] != '%' ==> r.None?
  {
    if |s| < 2 || s[0] != '%' then None
    else
      var j := if s[1] == 'L' then 2 else 1;
      if j < |s| && IsDigit(s[j]) then
        if j + 1 < |s| && IsDigit(s[j + 1]) then Some((10 * DigitValue(s[j]) + DigitValue(s[j + 1]), j + 2))
        else Some((DigitValue(s[j]), j + 1))
      else None
  }

  /** The numbers of the place markers of `s`, left to right. */
  function Markers(s: string): seq<nat>
    decreases |s|
  {
    if s == [] then []
    else
      match MarkerAt(s)
      case Some((n, len)) => [n] + Markers(s[len..])
      case None => Markers(s[1..])
  }

  /** `s` with every marker numbered `n` replaced by `a`. */
  function ReplaceMarker(s: string, n: nat, a: string): string
    decreases |s|
  {
    if s == [] then []
    else
      match MarkerAt(s)
      case Some((m, len)) => (if m == n then a else s[..len]) + ReplaceMarker(s[len..], n, a)
      case None => [s[0]] + ReplaceMarker(s[1..], n, a)
  }

  function Min(xs: seq<nat>): (m: nat)
    requires xs != []
    ensures m in xs && forall x :: x in xs ==> m <= x
  {
    if |xs| == 1 then xs[0]
    else
      var rest := Min(xs[1..]);
      assert forall x :: x in xs ==> x == xs[0] || x in xs[1..];
      if xs[0] <= rest then xs[0] else rest
  }

  function Arg(s: string, a: string): string {
    var markers := Markers(s);
    if markers == [] then s else ReplaceMarker(s, Min(markers), a)
  }

  /** A prefix without `%` holds no marker and is copied as it is. */
  lemma {:induction false} PlainPrefix(p: string, s: string, n: nat, a: string)
    requires '%' !in p
    ensures Markers(p + s) == Markers(s)
    ensures ReplaceMarker(p + s, n, a) == p + ReplaceMarker(s, n, a)
  {
    if p == [] {
      assert p + s == s;
    } else {
      assert (p + s)[0] == p[0] && p[0] in p;
      assert (p + s)[1..] == p[1..] + s;
      assert forall c :: c in p[1..] ==> c in p;
      PlainPrefix(p[1..], s, n, a);
      assert [p[0]] + (p[1..] + ReplaceMarker(s, n, a)) == p + ReplaceMarker(s, n, a);
    }
  }

  /** A string without `%` has no marker, so `arg` leaves it unchanged. */
  lemma PlainString(s: string, a: string)
    requires '%' !in s
    ensures Markers(s) == [] && Arg(s, a) == s
  {
    PlainPrefix(s, [], 0, a);
    assert s + [] == s;
  }

  /** The marker `%<d>` at the head of a string: one marker number, and
      the scan goes on after its two characters. */
  lemma MarkerThen(d: char, rest: string, n: nat, a: string)
    requires IsDigit(d) && (rest == [] || !IsDigit(rest[0]))
    ensures Markers(['%', d] + rest) == [DigitValue(d)] + Markers(rest)
    ensures ReplaceMarker(['%', d] + rest, n, a) == (if n == DigitValue(d) then a else ['%', d]) + ReplaceMarker(rest, n, a)
  {
    var s := ['%', d] + rest;
    assert s[1] == d && d != 'L';
    assert MarkerAt(s) == Some((DigitValue(d), 2));
    assert s[2..] == rest && s[..2] == ['%', d];
  }

  /** `arg` on a text with a single marker `%<d>`, between two plain texts,
      puts `a` in its place. */
  lemma ArgSingleMarker(p: string, d: char, r: string, a: string)
    requires '%' !in p && '%' !in r && IsDigit(d) && (r == [] || !IsDigit(r[0]))
    ensures Arg(p + (['%', d] + r), a) == p + (a + r)
  {
    PlainPrefix(p, ['%', d] + r, DigitValue(d), a);
    MarkerThen(d, r, DigitValue(d), a);
    PlainPrefix(r, [], DigitValue(d), a);
    assert r + [] == r;
    assert Min([DigitValue(d)]) == DigitValue(d);
  }

  /** `arg` on a text with the markers `%1` and `%2`, in that order and
      among plain texts, fills `%1` and keeps `%2`. */
  lemma ArgFirstOfTwo(p: string, q: string, r: string, a: string)
    requires '%' !in p && '%' !in q && '%' !in r
    requires q != [] && !IsDigit(q[0]) && (r == [] || !IsDigit(r[0]))
    ensures Arg(p + (['%', '1'] + (q + (['%', '2'] + r))), a) == p + (a + (q + (['%', '2'] + r)))
  {
    var tail := q + (['%', '2'] + r);
    PlainPrefix(p, ['%', '1'] + tail, 1, a);
    assert tail[0] == q[0];
    MarkerThen('1', tail, 1, a);
    PlainPrefix(q, ['%', '2'] + r, 1, a);
    MarkerThen('2', r, 1, a);
    PlainPrefix(r, [], 1, a);
    assert r + [] == r;
    assert Min([1, 2]) == 1;
  }

  /** `arg` on a text with a marker numbered above 2 and then `%2`, among
      plain texts, fills `%2` and keeps the other marker. */
  lemma ArgSecondOfTwo(p: string, d: char, q: string, r: string, a: string)
    requires '%' !in p && '%' !in q && '%' !in r
    requires IsDigit(d) && DigitValue(d) > 2
    requires q != [] && !IsDigit(q[0]) && (r == [] || !IsDigit(r[0]))
    ensures Arg(p + (['%', d] + (q + (['%', '2'] + r))), a) == p + (['%', d] + (q + (a + r)))
  {
    var tail := q + (['%', '2'] + r);
    PlainPrefix(p, ['%', d] + tail, 2, a);
    assert tail[0] == q[0];
    MarkerThen(d, tail, 2, a);
    PlainPrefix(q, ['%', '2'] + r, 2, a);
    MarkerThen('2', r, 2, a);
    PlainPrefix(r, [], 2, a);
    assert r + [] == r;
    assert Min([DigitValue(d), 2]) == 2;
  }
}
