/** String helpers from Rust's standard library that the core relies on:
    `join` on a vector of strings and `str::strip_prefix`. */
module Text {
  import opened Wrappers

  const CRLF: string := "\r\n"

  predicate IsAsciiAlpha(c: char) {
    'A' <= c <= 'Z' || 'a' <= c <= 'z'
  }

  predicate IsPrefix(p: string, s: string) {
    |p| <= |s| && s[..|p|] == p
  }

  /** `parts.join(sep)`: the parts with `sep` between neighbours, so that one
      more `sep` at the end gives every part followed by `sep`. */
  function Join(parts: seq<string>, sep: string): (r: string)
    ensures |parts| > 0 ==> r + sep == Terminated(parts, sep)
    decreases |parts|
  {
    if |parts| == 0 then ""
    else if |parts| == 1 then parts[0]
    else parts[0] + sep + Join(parts[1..], sep)
  }

  /** Every part followed by `term`: the line-per-item shape of a header block. */
  function Terminated(parts: seq<string>, term: string): string
    decreases |parts|
  {
    if |parts| == 0 then "" else parts[0] + term + Terminated(parts[1..], term)
  }

  /** Every part preceded by `sep`. */
  function Prefixed(parts: seq<string>, sep: string): string
    decreases |parts|
  {
    if |parts| == 0 then "" else sep + parts[0] + Prefixed(parts[1..], sep)
  }

  /** A join is its first part followed by the others, each preceded by `sep`. */
  lemma {:induction false} JoinCons(first: string, more: seq<string>, sep: string)
    ensures Join([first] + more, sep) == first + Prefixed(more, sep)
    decreases |more|
  {
    if |more| > 0 {
      JoinCons(more[0], more[1..], sep);
      assert ([first] + more)[1..] == more;
      assert [more[0]] + more[1..] == more;
    }
  }

  lemma {:induction false} TerminatedAppend(a: seq<string>, b: seq<string>, term: string)
    ensures Terminated(a + b, term) == Terminated(a, term) + Terminated(b, term)
    decreases |a|
  {
    if |a| == 0 {
      assert a + b == b;
    } else {
      TerminatedAppend(a[1..], b, term);
      assert (a + b)[0] == a[0];
      assert (a + b)[1..] == a[1..] + b;
    }
  }

  /** Terminating a list is terminating the items before `i`, then item `i`,
      then the items after it. */
  lemma TerminatedAt(parts: seq<string>, i: nat, term: string)
    requires i < |parts|
    ensures Terminated(parts, term)
            == Terminated(parts[..i], term) + parts[i] + (term + Terminated(parts[i + 1..], term))
  {
    assert parts == parts[..i] + [parts[i]] + parts[i + 1..];
    TerminatedAppend(parts[..i] + [parts[i]], parts[i + 1..], term);
    TerminatedAppend(parts[..i], [parts[i]], term);
    assert Terminated([parts[i]], term) == parts[i] + term;
  }

  lemma Assoc<T>(a: seq<T>, b: seq<T>, c: seq<T>)
    ensures a + (b + c) == a + b + c
  {
  }

  /** `s.strip_prefix(prefix)`. */
  function StripPrefix(s: string, prefix: string): (r: Option<string>)
    ensures r.Some? <==> IsPrefix(prefix, s)
    ensures r.Some? ==> prefix + r.value == s
  {
    if IsPrefix(prefix, s) then Some(s[|prefix|..]) else None
  }
}
