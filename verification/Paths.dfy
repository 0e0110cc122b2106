/** Lexical path handling: splitting, normalising, joining. */
module Paths {

  type Elements = seq<string>

  /** What one piece of a path does to the element list. */
  function Step(es: Elements, e: string): Elements
  {
    if e == "." then es
    else if e == ".." then (if es == [] then es else es[..|es| - 1])
    else if e == "" then es
    else es + [e]
  }

  /** Folds `f` over the slash-separated pieces of `cur + s`, where `cur` is the piece being read. */
  function Scan<A>(f: (A, string) -> A, acc: A, cur: string, s: string): A
    decreases |s|
  {
    if s == "" then f(acc, cur)
    else if s[0] == '/' then Scan(f, f(acc, cur), "", s[1..])
    else Scan(f, acc, cur + [s[0]], s[1..])
  }

  predicate Absolute(p: string) { p != "" && p[0] == '/' }

  /** AppendPath: an absolute path starts afresh, then each piece takes its step. */
  function Append(es: Elements, p: string): Elements
  {
    Scan(Step, if Absolute(p) then [] else es, "", p)
  }

  /** JoinList with '/'. */
  function Join(es: Elements): string
  {
    if es == [] then ""
    else
      var front := Join(es[..|es| - 1]);
      (if front == "" then "" else front + "/") + es[|es| - 1]
  }

  predicate NormalElement(e: string)
  {
    e != "" && e != "." && e != ".." && '/' !in e
  }

  predicate Normal(es: Elements)
  {
    forall i :: 0 <= i < |es| ==> NormalElement(es[i])
  }

  lemma StepNormal(es: Elements, e: string)
    requires Normal(es) && '/' !in e
    ensures Normal(Step(es, e))
  {
  }

  lemma {:induction false} ScanNormal(es: Elements, cur: string, s: string)
    requires Normal(es) && '/' !in cur
    ensures Normal(Scan(Step, es, cur, s))
    decreases |s|
  {
    StepNormal(es, cur);
    if s != "" {
      if s[0] == '/' {
        ScanNormal(Step(es, cur), "", s[1..]);
      } else {
        ScanNormal(es, cur + [s[0]], s[1..]);
      }
    }
  }

  /** Appending any string to a normal list gives a normal list: no "", ".", ".." or '/' in it. */
  lemma AppendNormal(es: Elements, p: string)
    requires Normal(es)
    ensures Normal(Append(es, p))
  {
    ScanNormal(if Absolute(p) then [] else es, "", p);
  }

  /** Scanning past an inserted slash is scanning one part and then the other. */
  lemma {:induction false} ScanConcat<A>(f: (A, string) -> A, acc: A, cur: string, a: string, b: string)
    ensures Scan(f, acc, cur, a + "/" + b) == Scan(f, Scan(f, acc, cur, a), "", b)
    decreases |a|
  {
    var s := a + "/" + b;
    if a == "" {
      assert s[0] == '/' && s[1..] == b;
    } else {
      assert s[0] == a[0] && s[1..] == a[1..] + "/" + b;
      if a[0] == '/' {
        ScanConcat(f, f(acc, cur), "", a[1..], b);
      } else {
        ScanConcat(f, acc, cur + [a[0]], a[1..], b);
      }
    }
  }

  /** A string without slashes is one piece. */
  lemma {:induction false} ScanElement<A>(f: (A, string) -> A, acc: A, cur: string, e: string)
    requires '/' !in e
    ensures Scan(f, acc, cur, e) == f(acc, cur + e)
    decreases |e|
  {
    if e == "" {
      assert cur + e == cur;
    } else {
      assert e[0] in e;
      ScanElement(f, acc, cur + [e[0]], e[1..]);
      assert cur + [e[0]] + e[1..] == cur + e;
    }
  }

  /** Appending `a` and then a relative `b` is appending them joined by a slash. */
  lemma AppendCompose(es: Elements, a: string, b: string)
    requires a != "" && !Absolute(b)
    ensures Append(Append(es, a), b) == Append(es, a + "/" + b)
  {
    assert (a + "/" + b)[0] == a[0];
    ScanConcat(Step, if Absolute(a) then [] else es, "", a, b);
  }

  lemma AppendElement(es: Elements, e: string)
    requires NormalElement(e)
    ensures Append(es, e) == es + [e]
  {
    ScanElement(Step, es, "", e);
    assert "" + e == e;
    assert e[0] in e;
  }

  /** ".." takes the last element away, if there is one. */
  lemma AppendDotDot(es: Elements)
    ensures Append(es, "..") == if es == [] then [] else es[..|es| - 1]
  {
    ScanElement(Step, es, "", "..");
    assert "" + ".." == "..";
  }

  /** An element followed by ".." comes to nothing. */
  lemma AppendUp(es: Elements, a: string, e: string)
    requires a != "" && NormalElement(e)
    ensures Append(es, a + "/" + e + "/..") == Append(es, a)
  {
    var upTo, down := Append(es, a), a + "/" + e;
    assert e[0] in e;
    AppendCompose(es, a, e);
    AppendElement(upTo, e);
    AppendCompose(es, down, "..");
    assert down + "/" + ".." == a + "/" + e + "/..";
    AppendDotDot(upTo + [e]);
    assert (upTo + [e])[..|upTo|] == upTo;
  }

  /** "." and nothing at all change nothing. */
  lemma AppendNeutral(es: Elements, a: string)
    requires a != ""
    ensures Append(es, a + "/.") == Append(es, a) == Append(es, a + "/")
  {
    var upTo := Append(es, a);
    AppendCompose(es, a, ".");
    AppendCompose(es, a, "");
    assert a + "/" + "." == a + "/." && a + "/" + "" == a + "/";
    ScanElement(Step, upTo, "", ".");
    ScanElement(Step, upTo, "", "");
    assert "" + "." == "." && "" + "" == "";
  }

  lemma JoinNonEmpty(es: Elements)
    requires Normal(es) && es != []
    ensures Join(es) != ""
  {
    assert NormalElement(es[|es| - 1]);
  }

  lemma {:induction false} ScanJoin(es: Elements)
    requires Normal(es)
    ensures Scan(Step, [], "", Join(es)) == es
  {
    if es != [] {
      var n := |es| - 1;
      var front, last := es[..n], es[n];
      assert NormalElement(last) && "" + last == last;
      ScanJoin(front);
      ScanElement(Step, front, "", last);
      assert es == front + [last];
      if n == 0 {
        assert Join(es) == last;
      } else {
        JoinNonEmpty(front);
        ScanConcat(Step, [], "", Join(front), last);
      }
    }
  }

  /** A normal list, joined and parsed again as an absolute path, is itself. */
  lemma ParseJoin(before: Elements, es: Elements)
    requires Normal(es)
    ensures Append(before, "/" + Join(es)) == es
  {
    var p := "/" + Join(es);
    assert p[1..] == Join(es);
    ScanJoin(es);
  }

  lemma JoinInjective(a: Elements, b: Elements)
    requires Normal(a) && Normal(b) && Join(a) == Join(b)
    ensures a == b
  {
    ParseJoin([], a);
    ParseJoin([], b);
  }

  // ---- The loops ---------------------------------------------------------------------------

  /** string::find. */
  method Find(s: string, c: char, pos: nat) returns (r: int)
    requires pos <= |s|
    ensures if r == -1 then c !in s[pos..] else pos <= r < |s| && s[r] == c && c !in s[pos..r]
  {
    var n := pos;
    while n < |s|
      invariant pos <= n <= |s| && c !in s[pos..n]
    {
      if s[n] == c {
        return n;
      }
      n := n + 1;
    }
    return -1;
  }

  method ApplyElement(lst: Elements, element: string) returns (r: Elements)
    ensures r == Step(lst, element)
  {
    r := lst;
    if element == "." {
    } else if element == ".." {
      if r != [] {
        r := r[..|r| - 1];
      }
    } else if element != "" {
      r := r + [element];
    }
  }

  /** One piece of a scan, delimited by a slash or by the end of the string. */
  lemma ScanPiece<A>(f: (A, string) -> A, acc: A, s: string, pos: nat, k: int)
    requires pos <= |s|
    requires if k == -1 then '/' !in s[pos..] else pos <= k < |s| && s[k] == '/' && '/' !in s[pos..k]
    ensures Scan(f, acc, "", s[pos..])
         == if k == -1 then f(acc, s[pos..]) else Scan(f, f(acc, s[pos..k]), "", s[k + 1..])
  {
    if k == -1 {
      ScanElement(f, acc, "", s[pos..]);
      assert "" + s[pos..] == s[pos..];
    } else {
      assert s[pos..] == s[pos..k] + "/" + s[k + 1..];
      ScanConcat(f, acc, "", s[pos..k], s[k + 1..]);
      ScanElement(f, acc, "", s[pos..k]);
      assert "" + s[pos..k] == s[pos..k];
    }
  }

  method AppendPath(lst: Elements, unixp: string) returns (r: Elements)
    ensures r == Append(lst, unixp)
  {
    r := lst;
    if unixp != "" && unixp[0] == '/' {
      r := [];
    }
    var pos := 0;
    assert unixp[0..] == unixp;
    while true
      invariant 0 <= pos <= |unixp| && Scan(Step, r, "", unixp[pos..]) == Append(lst, unixp)
      decreases |unixp| - pos
    {
      var nextPos := Find(unixp, '/', pos);
      var element := if nextPos < 0 then unixp[pos..] else unixp[pos..nextPos];
      ScanPiece(Step, r, unixp, pos, nextPos);
      r := ApplyElement(r, element);
      if nextPos < 0 {
        break;
      }
      pos := nextPos + 1;
    }
  }

  method JoinList(lst: Elements) returns (final: string)
    ensures final == Join(lst)
  {
    final := "";
    var i := 0;
    while i < |lst|
      invariant 0 <= i <= |lst| && final == Join(lst[..i])
    {
      assert lst[..i + 1][..i] == lst[..i];
      if final != "" {
        final := final + "/";
      }
      final := final + lst[i];
      i := i + 1;
    }
    assert lst[..i] == lst;
  }

  /** Does `mount` equal the first `len` elements of `other`? */
  method EqualsPartialPath(mount: Elements, other: Elements, len: nat) returns (r: bool)
    ensures r <==> len <= |other| && mount == other[..len]
  {
    if len != |mount| || len > |other| {
      return false;
    }
    var cnt := 0;
    while cnt < len
      invariant 0 <= cnt <= len && mount[..cnt] == other[..cnt]
    {
      if mount[cnt] != other[cnt] {
        return false;
      }
      cnt := cnt + 1;
    }
    return true;
  }
}
