// The two PHP string built-ins the tag parser is made of: `explode(',', s)`
// (with its inverse `implode(',', parts)`) and `trim(s)` with its default
// character list " \t\n\r\0\x0B".

module PhpStrings {

  /** The characters PHP's `trim` strips when no character list is given. */
  predicate IsTrimChar(c: char) {
    c == ' ' || c == '\t' || c == '\n' || c == '\r' || c == '\0' || c == '\U{000B}'
  }

  /** Every character of `t` is one `trim` strips. */
  predicate AllTrimChars(t: string) {
    forall i :: 0 <= i < |t| ==> IsTrimChar(t[i])
  }

  /** `t` neither starts nor ends with a character `trim` strips. */
  predicate IsTrimmed(t: string) {
    t == [] || (!IsTrimChar(t[0]) && !IsTrimChar(t[|t| - 1]))
  }

  /** `ltrim`: drops the longest prefix made of trim characters. */
  function TrimLeft(s: string): (r: string)
    ensures |r| <= |s|
  {
    if |s| > 0 && IsTrimChar(s[0]) then TrimLeft(s[1..]) else s
  }

  /** What `ltrim` keeps is a suffix that does not start with a trim
      character, and what it drops is trim characters only. */
  lemma {:induction false} TrimLeftSpec(s: string)
    ensures var r := TrimLeft(s);
      r == s[|s| - |r|..] && AllTrimChars(s[..|s| - |r|]) && (r == [] || !IsTrimChar(r[0]))
  {
    if |s| > 0 && IsTrimChar(s[0]) {
      TrimLeftSpec(s[1..]);
      var r := TrimLeft(s);
      assert s[..|s| - |r|] == [s[0]] + s[1..][..|s| - 1 - |r|];
    }
  }

  /** `rtrim`: drops the longest suffix made of trim characters. */
  function TrimRight(s: string): (r: string)
    ensures |r| <= |s|
  {
    if |s| > 0 && IsTrimChar(s[|s| - 1]) then TrimRight(s[..|s| - 1]) else s
  }

  /** What `rtrim` keeps is a prefix that does not end with a trim
      character, and what it drops is trim characters only. */
  lemma {:induction false} TrimRightSpec(s: string)
    ensures var r := TrimRight(s);
      r == s[..|r|] && AllTrimChars(s[|r|..]) && (r == [] || !IsTrimChar(r[|r| - 1]))
  {
    if |s| > 0 && IsTrimChar(s[|s| - 1]) {
      var s' := s[..|s| - 1];
      TrimRightSpec(s');
      var r := TrimRight(s);
      assert s[|r|..] == s'[|r|..] + [s[|s| - 1]];
      assert r == s'[..|r|];
    }
  }

  /** `trim`: strips trim characters from both ends. */
  function Trim(s: string): (r: string)
    ensures |r| <= |s|
  {
    TrimRight(TrimLeft(s))
  }

  /** What `trim` keeps neither starts nor ends with a trim character, and
      `s` is that with trim characters only before and after it. */
  lemma TrimSpec(s: string)
    ensures var r, i := Trim(s), |s| - |TrimLeft(s)|;
      IsTrimmed(r) && i + |r| <= |s| && s[i..i + |r|] == r &&
      AllTrimChars(s[..i]) && AllTrimChars(s[i + |r|..])
  {
    var l := TrimLeft(s);
    var r := TrimRight(l);
    TrimLeftSpec(s);
    TrimRightSpec(l);
    if r != [] {
      assert r[0] == l[0];
    }
    var i := |s| - |l|;
    assert s[i..i + |r|] == l[..|r|];
    assert s[i + |r|..] == l[|r|..];
  }

  /** Trimming adds no character. */
  lemma TrimKeeps(s: string, c: char)
    requires c in Trim(s)
    ensures c in s
  {
    TrimSpec(s);
    var i := |s| - |TrimLeft(s)|;
    var k :| 0 <= k < |Trim(s)| && Trim(s)[k] == c;
    assert s[i + k] == c;
  }

  /** Removing only trim characters from the front of a string that starts
      with something else gives that string back. */
  lemma {:induction false} TrimLeftPadded(a: string, t: string)
    requires AllTrimChars(a)
    requires t == [] || !IsTrimChar(t[0])
    ensures TrimLeft(a + t) == t
  {
    if a != [] {
      assert (a + t)[1..] == a[1..] + t;
      TrimLeftPadded(a[1..], t);
    } else {
      assert a + t == t;
    }
  }

  /** Mirror image of TrimLeftPadded. */
  lemma {:induction false} TrimRightPadded(t: string, b: string)
    requires AllTrimChars(b)
    requires t == [] || !IsTrimChar(t[|t| - 1])
    ensures TrimRight(t + b) == t
  {
    if b != [] {
      assert (t + b)[..|t + b| - 1] == t + b[..|b| - 1];
      TrimRightPadded(t, b[..|b| - 1]);
    } else {
      assert t + b == t;
    }
  }

  /** `Trim` is characterised uniquely: whatever trimmed `m` is surrounded
      by trim characters only, trimming gives back `m`. */
  lemma TrimUnique(a: string, m: string, b: string)
    requires AllTrimChars(a) && AllTrimChars(b) && IsTrimmed(m)
    ensures Trim(a + m + b) == m
  {
    if m == [] {
      assert a + m + b == a + b;
      AllTrimCharsConcat(a, b);
      TrimLeftPadded(a + b, []);
      assert a + b + [] == a + b;
    } else {
      assert a + m + b == a + (m + b);
      TrimLeftPadded(a, m + b);
      TrimRightPadded(m, b);
    }
  }

  lemma AllTrimCharsConcat(a: string, b: string)
    requires AllTrimChars(a) && AllTrimChars(b)
    ensures AllTrimChars(a + b)
  {
  }

  /** Trimming leaves nothing exactly when every character is a trim character. */
  lemma TrimEmpty(s: string)
    ensures Trim(s) == [] <==> AllTrimChars(s)
  {
    if Trim(s) == [] {
      TrimSpec(s);
      var i := |s| - |TrimLeft(s)|;
      forall k | 0 <= k < |s| ensures IsTrimChar(s[k]) {
        if k < i {
          assert s[k] == s[..i][k];
        } else {
          assert s[k] == s[i..][k - i];
        }
      }
    }
    if AllTrimChars(s) {
      TrimUnique(s, [], []);
      assert s + [] + [] == s;
    }
  }

  /** Trimming twice is trimming once. */
  lemma TrimIdempotent(s: string)
    ensures Trim(Trim(s)) == Trim(s)
  {
    TrimSpec(s);
    TrimUnique([], Trim(s), []);
    assert [] + Trim(s) + [] == Trim(s);
  }

  /** `implode(',', parts)`: the parts with one comma between neighbours. */
  function Implode(parts: seq<string>): string {
    if |parts| == 0 then ""
    else if |parts| == 1 then parts[0]
    else parts[0] + "," + Implode(parts[1..])
  }

  /** The number of commas in `s`. */
  function Commas(s: string): nat {
    if |s| == 0 then 0 else (if s[0] == ',' then 1 else 0) + Commas(s[1..])
  }

  /** `explode(',', s)`: the comma-free segments of `s`, including empty
      ones, one more segment than there are commas. */
  function Explode(s: string): (parts: seq<string>)
    ensures |parts| == Commas(s) + 1
    ensures forall i :: 0 <= i < |parts| ==> ',' !in parts[i]
    decreases |s|
  {
    if |s| == 0 then [""]
    else
      var rest := Explode(s[1..]);
      if s[0] == ',' then [""] + rest
      else [[s[0]] + rest[0]] + rest[1..]
  }

  /** Imploding a list with at least two parts puts a comma after the first. */
  lemma ImplodeCons(parts: seq<string>)
    requires |parts| >= 1
    ensures Implode(parts) == if |parts| == 1 then parts[0] else parts[0] + [','] + Implode(parts[1..])
  {
  }

  /** Imploding the segments `explode` returns gives the string back. */
  lemma {:induction false} ImplodeExplode(s: string)
    ensures Implode(Explode(s)) == s
    decreases |s|
  {
    if |s| > 0 {
      var rest := Explode(s[1..]);
      ImplodeExplode(s[1..]);
      assert s == [s[0]] + s[1..];
      if s[0] == ',' {
        var parts := [""] + rest;
        assert Explode(s) == parts;
        assert parts[1..] == rest;
        ImplodeCons(parts);
        assert Implode(parts) == [] + [','] + s[1..];
      } else {
        var parts := [[s[0]] + rest[0]] + rest[1..];
        assert Explode(s) == parts;
        ImplodeCons(parts);
        ImplodeCons(rest);
        if |rest| > 1 {
          assert parts[1..] == rest[1..];
          assert Implode(parts) == [s[0]] + (rest[0] + [','] + Implode(rest[1..]));
        } else {
          assert Implode(parts) == [s[0]] + rest[0];
        }
      }
    }
  }

  lemma {:induction false} ExplodeSegment(a: string, t: string)
    requires ',' !in a
    ensures Explode(a + [','] + t) == [a] + Explode(t)
    ensures Explode(a) == [a]
  {
    if a == [] {
      assert a + [','] + t == [','] + t;
      assert ([','] + t)[1..] == t;
      assert Explode(a) == [""];
    } else {
      assert (a + [','] + t)[1..] == a[1..] + [','] + t;
      ExplodeSegment(a[1..], t);
      assert a == [a[0]] + a[1..];
      assert a[1..] == [] ==> Explode(a[1..]) == [""];
    }
  }

  /** `explode` undoes `implode` on comma-free segments: the two are inverse. */
  lemma {:induction false} ExplodeImplode(parts: seq<string>)
    requires |parts| >= 1
    requires forall i :: 0 <= i < |parts| ==> ',' !in parts[i]
    ensures Explode(Implode(parts)) == parts
  {
    if |parts| == 1 {
      ExplodeSegment(parts[0], "");
    } else {
      ExplodeImplode(parts[1..]);
      ExplodeSegment(parts[0], Implode(parts[1..]));
      assert parts == [parts[0]] + parts[1..];
    }
  }
}
