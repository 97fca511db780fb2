/**
 * Splitting of a registry uninstall command line into an executable and its
 * arguments, as the automatic uninstaller does it, together with the string and
 * list helpers it relies on: String.Split with the separators " /" and " -" and
 * StringSplitOptions.RemoveEmptyEntries, remove_surrounding_quotes,
 * List<string>.Remove and join.
 */
module CommandLine {

  /** The white-space characters recognised here: space, tab, line feed, vertical tab, form feed, carriage return. */
  predicate IsWhiteSpace(c: char)
  {
    c == ' ' || c == '\t' || c == '\n' || c == '\U{000B}' || c == '\U{000C}' || c == '\r'
  }

  /** Empty, or made of white space only. */
  predicate IsBlank(s: string)
  {
    forall i | 0 <= i < |s| :: IsWhiteSpace(s[i])
  }

  /**
   * to_string (an extension helper whose source is not part of this model),
   * taken as: a null, empty or white-space-only string reads as "", any other
   * string is returned unchanged.
   */
  function ToString(s: string): (r: string)
    ensures r == "" <==> IsBlank(s)
    ensures !IsBlank(s) ==> r == s
  {
    if IsBlank(s) then "" else s
  }

  /** The two literal separators the uninstall string is split on. */
  const Delimiters: seq<string> := [" /", " -"]

  /**
   * A separator starts at index i of s. Both separators are a space followed by
   * '/' or '-', so two occurrences can never overlap: the character after an
   * occurrence's space is never itself a space.
   */
  predicate DelimiterAt(s: string, i: int)
  {
    0 <= i && i + 1 < |s| && s[i] == ' ' && (s[i + 1] == '/' || s[i + 1] == '-')
  }

  /** No separator occurs anywhere inside s. */
  predicate DelimiterFree(s: string)
  {
    forall i | 0 <= i < |s| :: !DelimiterAt(s, i)
  }

  /** DelimiterAt is exactly "the two characters at i spell one of Delimiters". */
  lemma DelimiterAtSpellsDelimiter(s: string, i: int)
    requires 0 <= i && i + 2 <= |s|
    ensures DelimiterAt(s, i) <==> s[i..i + 2] in Delimiters
  {
    var w := s[i..i + 2];
    assert w == [s[i], s[i + 1]];
  }

  /**
   * The fragments of s between separator occurrences, left to right, empty
   * fragments included (Split without RemoveEmptyEntries).
   */
  function Pieces(s: string): (r: seq<string>)
    ensures |r| == |Separators(s)| + 1
    ensures r[0] <= s
    decreases |s|
  {
    if |s| < 2 then [s]
    else if DelimiterAt(s, 0) then [""] + Pieces(s[2..])
    else
      var rest := Pieces(s[1..]);
      [[s[0]] + rest[0]] + rest[1..]
  }

  /** The separator occurrences of s, left to right. */
  function Separators(s: string): seq<string>
    decreases |s|
  {
    if |s| < 2 then []
    else if DelimiterAt(s, 0) then [s[..2]] + Separators(s[2..])
    else Separators(s[1..])
  }

  /** ps[0] + ds[0] + ps[1] + ds[1] + ... + ps[|ds|]: fragments glued back with their separators. */
  function Interleave(ps: seq<string>, ds: seq<string>): string
    requires |ps| == |ds| + 1
    decreases |ds|
  {
    if ds == [] then ps[0] else ps[0] + ds[0] + Interleave(ps[1..], ds[1..])
  }

  lemma InterleaveConsHead(c: char, rest: seq<string>, ds: seq<string>)
    requires |rest| == |ds| + 1
    ensures Interleave([[c] + rest[0]] + rest[1..], ds) == [c] + Interleave(rest, ds)
  {
    var ps := [[c] + rest[0]] + rest[1..];
    assert ps[1..] == rest[1..];
  }

  /** A prefix of a string inherits the absence of separators, and so does a suffix. */
  lemma DelimiterFreeTail(p: string)
    requires DelimiterFree(p) && p != []
    ensures DelimiterFree(p[1..])
  {
    forall i ensures !DelimiterAt(p[1..], i) {
      if DelimiterAt(p[1..], i) {
        assert DelimiterAt(p, i + 1);
      }
    }
  }

  /**
   * Splitting loses nothing but the separators: gluing the fragments back
   * together with the separators gives the input again, every separator found
   * is one of Delimiters, and no fragment contains a separator.
   */
  lemma {:induction false} PiecesReassemble(s: string)
    ensures Interleave(Pieces(s), Separators(s)) == s
    ensures forall d :: d in Separators(s) ==> d in Delimiters
    ensures forall p :: p in Pieces(s) ==> DelimiterFree(p)
    decreases |s|
  {
    if |s| < 2 {
      assert Pieces(s) == [s];
    } else if DelimiterAt(s, 0) {
      var t := s[2..];
      PiecesReassemble(t);
      assert s == s[..2] + t;
      DelimiterAtSpellsDelimiter(s, 0);
      var ps, ds := Pieces(s), Separators(s);
      assert ps == [""] + Pieces(t) && ds == [s[..2]] + Separators(t);
      assert ps[1..] == Pieces(t) && ds[1..] == Separators(t);
      assert DelimiterFree("");
    } else {
      var t := s[1..];
      PiecesReassemble(t);
      var rest, ds := Pieces(t), Separators(t);
      InterleaveConsHead(s[0], rest, ds);
      assert s == [s[0]] + t;
      var q := [s[0]] + rest[0];
      assert rest[0] in rest;
      forall i ensures !DelimiterAt(q, i) {
        if i == 0 {
          if |q| >= 2 {
            assert q[1] == rest[0][0] == t[0] == s[1];
          }
        } else {
          assert DelimiterAt(q, i) <==> DelimiterAt(rest[0], i - 1);
        }
      }
      forall p | p in Pieces(s) ensures DelimiterFree(p) {
        if p != q {
          assert p in rest[1..];
        }
      }
    }
  }

  /** A string without separators is a single fragment. */
  lemma {:induction false} PiecesOfDelimiterFree(p: string)
    requires DelimiterFree(p)
    ensures Pieces(p) == [p] && Separators(p) == []
    decreases |p|
  {
    if |p| >= 2 {
      assert !DelimiterAt(p, 0);
      DelimiterFreeTail(p);
      PiecesOfDelimiterFree(p[1..]);
      assert [p[0]] + p[1..] == p;
    }
  }

  /** A separator-free fragment followed by a separator splits off as the first fragment. */
  lemma {:induction false} PiecesOfCons(p: string, d: string, t: string)
    requires DelimiterFree(p) && d in Delimiters
    ensures Pieces(p + d + t) == [p] + Pieces(t)
    ensures Separators(p + d + t) == [d] + Separators(t)
    decreases |p|
  {
    var s := p + d + t;
    if p == [] {
      assert s == d + t;
      assert s[..2] == d && s[2..] == t;
      assert DelimiterAt(s, 0);
    } else {
      if |p| >= 2 {
        assert s[0] == p[0] && s[1] == p[1];
        assert !DelimiterAt(p, 0);
      } else {
        assert s[1] == d[0] == ' ';
      }
      assert !DelimiterAt(s, 0);
      DelimiterFreeTail(p);
      assert s[1..] == p[1..] + d + t;
      PiecesOfCons(p[1..], d, t);
      assert [p[0]] + p[1..] == p;
    }
  }

  /**
   * The split is determined by the reassembly property: whenever s is glued
   * from separator-free fragments and separators, those are exactly the
   * fragments and separators the split finds.
   */
  lemma {:induction false} PiecesUnique(ps: seq<string>, ds: seq<string>)
    requires |ps| == |ds| + 1
    requires forall p :: p in ps ==> DelimiterFree(p)
    requires forall d :: d in ds ==> d in Delimiters
    ensures Pieces(Interleave(ps, ds)) == ps
    ensures Separators(Interleave(ps, ds)) == ds
    decreases |ds|
  {
    assert ps[0] in ps;
    if ds == [] {
      PiecesOfDelimiterFree(ps[0]);
    } else {
      assert ds[0] in ds;
      var t := Interleave(ps[1..], ds[1..]);
      forall p | p in ps[1..] ensures DelimiterFree(p) {
        assert p in ps;
      }
      forall d | d in ds[1..] ensures d in Delimiters {
        assert d in ds;
      }
      PiecesUnique(ps[1..], ds[1..]);
      PiecesOfCons(ps[0], ds[0], t);
      assert [ps[0]] + ps[1..] == ps;
      assert [ds[0]] + ds[1..] == ds;
    }
  }

  /** StringSplitOptions.RemoveEmptyEntries: drop the empty fragments, keep the order of the rest. */
  function RemoveEmptyEntries(ps: seq<string>): (r: seq<string>)
    ensures forall x :: x in r ==> x in ps && x != ""
    ensures forall x :: x in ps && x != "" ==> x in r
  {
    if ps == [] then []
    else (if ps[0] == "" then [] else [ps[0]]) + RemoveEmptyEntries(ps[1..])
  }

  /** Every non-empty fragment is kept as often as it occurs, and no empty one is. */
  lemma {:induction false} RemoveEmptyEntriesMultiset(ps: seq<string>)
    ensures multiset(RemoveEmptyEntries(ps)) == multiset(ps)["" := 0]
  {
    if ps != [] {
      RemoveEmptyEntriesMultiset(ps[1..]);
      assert ps == [ps[0]] + ps[1..];
    }
  }

  /**
   * Dropping empty fragments works piece by piece: the fragments of a + b that
   * are kept are those kept from a followed by those kept from b, so the order
   * of the kept fragments is their order in the input.
   */
  lemma {:induction false} RemoveEmptyEntriesAppend(a: seq<string>, b: seq<string>)
    ensures RemoveEmptyEntries(a + b) == RemoveEmptyEntries(a) + RemoveEmptyEntries(b)
  {
    if a == [] {
      assert a + b == b;
    } else {
      assert (a + b)[1..] == a[1..] + b;
      RemoveEmptyEntriesAppend(a[1..], b);
    }
  }

  /** A list without empty fragments is kept whole. */
  lemma {:induction false} RemoveEmptyEntriesNoneEmpty(ps: seq<string>)
    requires forall i :: 0 <= i < |ps| ==> ps[i] != ""
    ensures RemoveEmptyEntries(ps) == ps
  {
    if ps != [] {
      RemoveEmptyEntriesNoneEmpty(ps[1..]);
      assert [ps[0]] + ps[1..] == ps;
    }
  }

  /** The uninstall string split on " /" and " -" with empty entries removed. */
  function Split(s: string): (r: seq<string>)
    ensures forall p :: p in r ==> p != "" && DelimiterFree(p)
  {
    PiecesReassemble(s);
    RemoveEmptyEntries(Pieces(s))
  }

  /** The fragments glued together without anything in between. */
  function Concat(ps: seq<string>): string
  {
    if ps == [] then "" else ps[0] + Concat(ps[1..])
  }

  /** s with every separator occurrence deleted. */
  function DropDelimiters(s: string): string
    decreases |s|
  {
    if |s| < 2 then s
    else if DelimiterAt(s, 0) then DropDelimiters(s[2..])
    else [s[0]] + DropDelimiters(s[1..])
  }

  lemma {:induction false} ConcatRemoveEmptyEntries(ps: seq<string>)
    ensures Concat(RemoveEmptyEntries(ps)) == Concat(ps)
  {
    if ps != [] {
      ConcatRemoveEmptyEntries(ps[1..]);
      var head := if ps[0] == "" then [] else [ps[0]];
      ConcatAppend(head, RemoveEmptyEntries(ps[1..]));
    }
  }

  lemma {:induction false} ConcatAppend(xs: seq<string>, ys: seq<string>)
    ensures Concat(xs + ys) == Concat(xs) + Concat(ys)
  {
    if xs != [] {
      assert (xs + ys)[1..] == xs[1..] + ys;
      ConcatAppend(xs[1..], ys);
    } else {
      assert xs + ys == ys;
    }
  }

  lemma ConcatCons(x: string, xs: seq<string>)
    ensures Concat([x] + xs) == x + Concat(xs)
  {
    assert ([x] + xs)[1..] == xs;
  }

  lemma {:induction false} ConcatPieces(s: string)
    ensures Concat(Pieces(s)) == DropDelimiters(s)
    decreases |s|
  {
    if |s| < 2 {
      assert Pieces(s) == [s];
      ConcatCons(s, []);
    } else if DelimiterAt(s, 0) {
      var rest := Pieces(s[2..]);
      ConcatPieces(s[2..]);
      assert Pieces(s) == [""] + rest;
      ConcatCons("", rest);
    } else {
      var rest := Pieces(s[1..]);
      ConcatPieces(s[1..]);
      assert Pieces(s) == [[s[0]] + rest[0]] + rest[1..];
      ConcatCons([s[0]] + rest[0], rest[1..]);
      assert rest == [rest[0]] + rest[1..];
      ConcatCons(rest[0], rest[1..]);
      assert DropDelimiters(s) == [s[0]] + DropDelimiters(s[1..]);
    }
  }

  /**
   * The split keeps every character of the uninstall string except the
   * separators themselves, in their original order.
   */
  lemma SplitKeepsAllButDelimiters(s: string)
    ensures Concat(Split(s)) == DropDelimiters(s)
  {
    ConcatRemoveEmptyEntries(Pieces(s));
    ConcatPieces(s);
  }

  /** An empty uninstall string has no fragments at all. */
  lemma SplitEmpty()
    ensures Split("") == []
  {
    assert Pieces("") == [""];
  }

  /**
   * Without any separator the uninstall string is a single fragment (none when
   * it is empty).
   */
  lemma SplitWithoutDelimiter(s: string)
    requires DelimiterFree(s)
    ensures Split(s) == if s == "" then [] else [s]
  {
    PiecesOfDelimiterFree(s);
    assert RemoveEmptyEntries([s]) == (if s == "" then [] else [s]) + RemoveEmptyEntries([]);
  }

  /**
   * DefaultIfEmpty(string.Empty).FirstOrDefault(): the first fragment, or ""
   * when there is none. On a list without empty entries, such as a split, the
   * default is told apart from every real fragment.
   */
  function FirstOrEmpty(xs: seq<string>): (r: string)
    ensures xs != [] ==> r == xs[0]
    ensures (forall i :: 0 <= i < |xs| ==> xs[i] != "") ==> (r == "" <==> xs == [])
  {
    if xs == [] then "" else xs[0]
  }

  /** Enclosed in one double quote on each side. */
  predicate IsQuoted(s: string)
  {
    |s| >= 2 && s[0] == '"' && s[|s| - 1] == '"'
  }

  /**
   * remove_surrounding_quotes (an extension helper whose source is not part of
   * this model), taken as: strip one leading and one trailing double quote when
   * both are present, otherwise leave the string alone.
   */
  function RemoveSurroundingQuotes(s: string): (r: string)
    ensures r == s <==> !IsQuoted(s)
    ensures IsQuoted(s) ==> s == ['"'] + r + ['"']
  {
    if IsQuoted(s) then s[1..|s| - 1] else s
  }

  /** Removing the quotes from a separator-free string leaves it separator-free. */
  lemma QuotesKeepDelimiterFree(s: string)
    requires DelimiterFree(s)
    ensures DelimiterFree(RemoveSurroundingQuotes(s))
  {
    if IsQuoted(s) {
      var r := s[1..|s| - 1];
      forall i ensures !DelimiterAt(r, i) {
        if DelimiterAt(r, i) {
          assert DelimiterAt(s, i + 1);
        }
      }
    }
  }

  /** Quoting a string and removing the quotes again gives the string back. */
  lemma QuotesRoundTrip(t: string)
    ensures RemoveSurroundingQuotes(['"'] + t + ['"']) == t
  {
    var s := ['"'] + t + ['"'];
    assert IsQuoted(s);
    assert s[1..|s| - 1] == t;
  }

  /** Only one layer of quotes is removed: a doubly quoted string stays quoted once. */
  lemma QuotesRemovedOnce(t: string)
    requires IsQuoted(t)
    ensures RemoveSurroundingQuotes(['"'] + t + ['"']) == t
    ensures IsQuoted(RemoveSurroundingQuotes(['"'] + t + ['"']))
  {
    QuotesRoundTrip(t);
  }

  /** List.IndexOf: the first position holding x, or -1. */
  function IndexOf<T(==)>(xs: seq<T>, x: T): (i: int)
    ensures x in xs ==> 0 <= i < |xs| && xs[i] == x && x !in xs[..i]
    ensures x !in xs ==> i == -1
  {
    if xs == [] then -1
    else if xs[0] == x then 0
    else
      var j := IndexOf(xs[1..], x);
      assert x in xs ==> x in xs[1..];
      if j < 0 then -1
      else
        assert xs[..j + 1] == [xs[0]] + xs[1..][..j];
        j + 1
  }

  /**
   * List.Remove: deletes the first element equal to x, if there is one, and
   * leaves every other element where it was.
   */
  function RemoveFirst<T(==)>(xs: seq<T>, x: T): (r: seq<T>)
    ensures x !in xs ==> r == xs
    ensures x in xs ==> r == xs[..IndexOf(xs, x)] + xs[IndexOf(xs, x) + 1..]
  {
    if xs == [] then []
    else if xs[0] == x then xs[1..]
    else
      var rest := RemoveFirst(xs[1..], x);
      if x in xs[1..] then
        var j := IndexOf(xs[1..], x);
        assert IndexOf(xs, x) == j + 1;
        SpliceCons(xs, j);
        [xs[0]] + rest
      else
        [xs[0]] + rest
  }

  lemma SpliceCons<T>(xs: seq<T>, j: nat)
    requires j + 1 < |xs|
    ensures [xs[0]] + (xs[1..][..j] + xs[1..][j + 1..]) == xs[..j + 1] + xs[j + 2..]
  {
    assert xs[..j + 1] == [xs[0]] + xs[1..][..j];
    assert xs[j + 2..] == xs[1..][j + 1..];
  }

  /** List.Remove shortens the list by one exactly when x occurs in it, and adds nothing. */
  lemma {:induction false} RemoveFirstShrinks<T>(xs: seq<T>, x: T)
    ensures |RemoveFirst(xs, x)| == if x in xs then |xs| - 1 else |xs|
    ensures forall y :: y in RemoveFirst(xs, x) ==> y in xs
  {
    RemoveFirstMultiset(xs, x);
    var r := RemoveFirst(xs, x);
    assert |multiset(r)| == |r| && |multiset(xs)| == |xs|;
    forall y | y in r ensures y in xs {
      assert y in multiset(r);
    }
  }

  /** List.Remove removes at most one element, and only one equal to x. */
  lemma {:induction false} RemoveFirstMultiset<T>(xs: seq<T>, x: T)
    ensures multiset(RemoveFirst(xs, x)) == multiset(xs) - multiset{x}
  {
    if xs == [] {
    } else {
      var y, tail := xs[0], xs[1..];
      assert xs == [y] + tail;
      if y == x {
        assert RemoveFirst(xs, x) == tail;
      } else {
        RemoveFirstMultiset(tail, x);
        var r := RemoveFirst(tail, x);
        assert RemoveFirst(xs, x) == [y] + r;
        assert multiset([y] + r) == multiset{y} + multiset(r);
        assert multiset(xs) == multiset{y} + multiset(tail);
      }
    }
  }

  /**
   * string.Join: the items with one separator between each two neighbours. The
   * joined string starts with the first item.
   */
  function Join(xs: seq<string>, sep: string): (r: string)
    ensures xs == [] ==> r == ""
    ensures xs != [] ==> xs[0] <= r
  {
    if xs == [] then ""
    else if |xs| == 1 then xs[0]
    else xs[0] + sep + Join(xs[1..], sep)
  }

  /** The joined string is as long as all items together plus one separator per pair of neighbours. */
  lemma {:induction false} JoinLength(xs: seq<string>, sep: string)
    requires xs != []
    ensures |Join(xs, sep)| == |Concat(xs)| + (|xs| - 1) * |sep|
  {
    if |xs| >= 2 {
      JoinLength(xs[1..], sep);
    }
  }

  /** An item appended to the list shows up at the end of the joined string, after one separator. */
  lemma {:induction false} JoinAppend(xs: seq<string>, x: string, sep: string)
    ensures Join(xs + [x], sep) == if xs == [] then x else Join(xs, sep) + sep + x
  {
    if |xs| >= 2 {
      assert (xs + [x])[1..] == xs[1..] + [x];
      JoinAppend(xs[1..], x, sep);
    } else if |xs| == 1 {
      assert (xs + [x])[1..] == [x];
    }
  }
}
