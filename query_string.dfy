/** The query string `get_auth_url` builds: `k=v` pairs joined by `&`, with no
    percent-encoding, and the reading an authorization server gives it (split at
    each `&`, then at the first `=` of each part). */
module QueryString {
  import opened Wrappers

  type Param = (string, string)

  /** `f'{k}={v}'`. */
  function Field(p: Param): string {
    p.0 + "=" + p.1
  }

  /** `'&'.join([f'{k}={v}' for k, v in params])`. */
  function Join(params: seq<Param>): string
    decreases |params|
  {
    if |params| == 0 then ""
    else if |params| == 1 then Field(params[0])
    else Field(params[0]) + "&" + Join(params[1..])
  }

  /** Python's `s.split(sep)`: the parts between separators, at least one. */
  function Split(s: string, sep: char): (r: seq<string>)
    ensures |r| >= 1
    decreases |s|
  {
    if |s| == 0 then [""]
    else if s[0] == sep then [""] + Split(s[1..], sep)
    else
      var t := Split(s[1..], sep);
      [[s[0]] + t[0]] + t[1..]
  }

  /** Python's `s.partition(sep)` without the separator: the text before the
      first `sep` and the text after it (empty if there is none). */
  function Partition(s: string, sep: char): (r: (string, string))
    ensures sep !in r.0
    decreases |s|
  {
    if |s| == 0 then ("", "")
    else if s[0] == sep then ("", s[1..])
    else
      var t := Partition(s[1..], sep);
      ([s[0]] + t.0, t.1)
  }

  /** The parameters a query string carries, in order. */
  function Parse(q: string): (r: seq<Param>)
    ensures |r| == |Split(q, '&')|
  {
    var parts := Split(q, '&');
    seq(|parts|, i requires 0 <= i < |parts| => Partition(parts[i], '='))
  }

  lemma {:induction false} SplitWithout(s: string, sep: char)
    requires sep !in s
    ensures Split(s, sep) == [s]
    decreases |s|
  {
    if |s| > 0 {
      SplitWithout(s[1..], sep);
      assert [s[0]] + s[1..] == s;
    }
  }

  lemma {:induction false} SplitAfter(a: string, sep: char, b: string)
    requires sep !in a
    ensures Split(a + [sep] + b, sep) == [a] + Split(b, sep)
    decreases |a|
  {
    if |a| > 0 {
      SplitAfter(a[1..], sep, b);
      assert (a + [sep] + b)[1..] == a[1..] + [sep] + b;
      assert [a[0]] + a[1..] == a;
    } else {
      assert a + [sep] + b == [sep] + b;
    }
  }

  lemma {:induction false} PartitionAt(k: string, sep: char, v: string)
    requires sep !in k
    ensures Partition(k + [sep] + v, sep) == (k, v)
    decreases |k|
  {
    if |k| > 0 {
      PartitionAt(k[1..], sep, v);
      assert (k + [sep] + v)[1..] == k[1..] + [sep] + v;
      assert [k[0]] + k[1..] == k;
    } else {
      assert k + [sep] + v == [sep] + v;
    }
  }

  /** A parameter whose key has no `&` or `=` and whose value has no `&`. */
  predicate Plain(p: Param) {
    '&' !in p.0 && '&' !in p.1 && '=' !in p.0
  }

  /** A parameter list of plain parameters: exactly the lists the unescaped
      join preserves. */
  predicate Unambiguous(params: seq<Param>) {
    forall i :: 0 <= i < |params| ==> Plain(params[i])
  }

  /** The splitting of a joined, unambiguous, non-empty list gives back its
      fields. */
  lemma {:induction false} SplitJoin(params: seq<Param>)
    requires |params| > 0 && Unambiguous(params)
    ensures |Split(Join(params), '&')| == |params|
    ensures forall i :: 0 <= i < |params| ==> Split(Join(params), '&')[i] == Field(params[i])
    decreases |params|
  {
    var f := Field(params[0]);
    assert '&' !in f by {
      forall i | 0 <= i < |f| ensures f[i] != '&' {
        if i < |params[0].0| { assert f[i] == params[0].0[i]; }
        else if i > |params[0].0| { assert f[i] == params[0].1[i - |params[0].0| - 1]; }
      }
    }
    if |params| == 1 {
      SplitWithout(f, '&');
    } else {
      SplitJoin(params[1..]);
      SplitAfter(f, '&', Join(params[1..]));
      assert Join(params) == f + ['&'] + Join(params[1..]);
    }
  }

  /** Reading a joined, unambiguous, non-empty list gives the list back. */
  lemma ParseJoin(params: seq<Param>)
    requires |params| > 0 && Unambiguous(params)
    ensures Parse(Join(params)) == params
  {
    SplitJoin(params);
    var r := Parse(Join(params));
    forall i | 0 <= i < |params| ensures r[i] == params[i] {
      PartitionAt(params[i].0, '=', params[i].1);
      assert Field(params[i]) == params[i].0 + ['='] + params[i].1;
    }
  }

  /** How many parameters carry key `k`. */
  function CountKey(params: seq<Param>, k: string): nat
    decreases |params|
  {
    if |params| == 0 then 0
    else (if params[0].0 == k then 1 else 0) + CountKey(params[1..], k)
  }

  /** The value of the first parameter with key `k`. */
  function Lookup(params: seq<Param>, k: string): (r: Option<string>)
    ensures r.Some? <==> CountKey(params, k) > 0
    decreases |params|
  {
    if |params| == 0 then None
    else if params[0].0 == k then Some(params[0].1)
    else Lookup(params[1..], k)
  }

  /** In a list with distinct keys, each key occurs once and looks up its own
      value. */
  lemma {:induction false} KeyAt(params: seq<Param>, i: int)
    requires DistinctKeys(params) && 0 <= i < |params|
    ensures CountKey(params, params[i].0) == 1
    ensures Lookup(params, params[i].0) == Some(params[i].1)
    decreases |params|
  {
    var k := params[i].0;
    if i == 0 {
      KeyAbsent(params[1..], k);
    } else {
      KeyAt(params[1..], i - 1);
    }
  }

  lemma {:induction false} KeyAbsent(params: seq<Param>, k: string)
    requires forall j :: 0 <= j < |params| ==> params[j].0 != k
    ensures CountKey(params, k) == 0
    decreases |params|
  {
    if |params| > 0 {
      KeyAbsent(params[1..], k);
    }
  }
}
