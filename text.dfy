/** Python `str` operations that the browser code relies on, over Dafny
    strings (`seq<char>`): `split` on one separator, `rstrip` / `strip` of
    one character, `startswith` / `endswith`, the last `split` component
    and decimal rendering of a natural number (`f"{n}"`). */
module Text {

  predicate StartsWith(s: string, p: string) {
    |p| <= |s| && s[..|p|] == p
  }

  predicate EndsWith(s: string, p: string) {
    |p| <= |s| && s[|s| - |p|..] == p
  }

  /** `s.split(sep)`: never empty; `"".split(sep) == [""]`. */
  function Split(s: string, sep: char): (parts: seq<string>)
    ensures |parts| >= 1
    decreases |s|
  {
    if s == [] then [""]
    else
      var rest := Split(s[1..], sep);
      if s[0] == sep then [""] + rest
      else [[s[0]] + rest[0]] + rest[1..]
  }

  /** `sep.join(parts)`, the inverse of `Split`. */
  function Join(parts: seq<string>, sep: char): string
    decreases |parts|
  {
    if parts == [] then ""
    else if |parts| == 1 then parts[0]
    else parts[0] + [sep] + Join(parts[1..], sep)
  }

  /** Every component joined back with its separator and a trailing one:
      the `current_path += part + "/"` accumulation. */
  function JoinTerminated(parts: seq<string>, sep: char): string
    decreases |parts|
  {
    if parts == [] then "" else parts[0] + [sep] + JoinTerminated(parts[1..], sep)
  }

  /** `s.split(sep)[-1]`. */
  function LastComponent(s: string, sep: char): string {
    var parts := Split(s, sep);
    parts[|parts| - 1]
  }

  /** `s.rstrip(c)`: drops every trailing `c`. */
  function RStrip(s: string, c: char): (t: string)
    ensures |t| <= |s|
    decreases |s|
  {
    if s != [] && s[|s| - 1] == c then RStrip(s[..|s| - 1], c) else s
  }

  /** Drops every leading `c`. */
  function LStrip(s: string, c: char): (t: string)
    ensures |t| <= |s|
    decreases |s|
  {
    if s != [] && s[0] == c then LStrip(s[1..], c) else s
  }

  /** `s.strip(c)`: drops `c` from both ends. */
  function Strip(s: string, c: char): string {
    RStrip(LStrip(s, c), c)
  }

  function Digit(d: nat): (c: char)
    requires d < 10
  {
    "0123456789"[d]
  }

  predicate IsDigit(c: char) {
    '0' <= c <= '9'
  }

  /** `f"{n}"` / `str(n)` for a natural number. */
  function DecimalString(n: nat): (s: string)
    ensures |s| >= 1 && IsDigit(s[|s| - 1])
    ensures forall i :: 0 <= i < |s| ==> IsDigit(s[i])
    decreases n
  {
    if n < 10 then [Digit(n)] else DecimalString(n / 10) + [Digit(n % 10)]
  }

  // ---------------------------------------------------------------------
  // Properties

  /** No component of a split contains the separator. */
  lemma {:induction false} SplitPartsFree(s: string, sep: char)
    ensures forall k :: 0 <= k < |Split(s, sep)| ==> sep !in Split(s, sep)[k]
    decreases |s|
  {
    if s != [] {
      SplitPartsFree(s[1..], sep);
      var rest := Split(s[1..], sep);
      if s[0] != sep {
        assert sep !in rest[0];
        assert sep !in [s[0]] + rest[0];
      }
    }
  }

  /** `sep.join(s.split(sep)) == s`. */
  lemma {:induction false} JoinSplit(s: string, sep: char)
    ensures Join(Split(s, sep), sep) == s
    decreases |s|
  {
    if s != [] {
      JoinSplit(s[1..], sep);
      var rest := Split(s[1..], sep);
      if s[0] == sep {
        assert Split(s, sep) == [""] + rest;
        assert s == [s[0]] + s[1..];
      } else {
        var parts := [[s[0]] + rest[0]] + rest[1..];
        assert Split(s, sep) == parts;
        if |rest| == 1 {
          assert Join(parts, sep) == [s[0]] + rest[0];
        } else {
          assert parts[1..] == rest[1..];
          assert Join(rest, sep) == rest[0] + [sep] + Join(rest[1..], sep);
          assert Join(parts, sep) == [s[0]] + rest[0] + [sep] + Join(rest[1..], sep);
        }
        assert s == [s[0]] + s[1..];
      }
    }
  }

  /** Splitting and joining are inverse in the other direction too, for
      components that do not contain the separator. */
  lemma {:induction false} SplitJoin(parts: seq<string>, sep: char)
    requires |parts| >= 1
    requires forall k :: 0 <= k < |parts| ==> sep !in parts[k]
    ensures Split(Join(parts, sep), sep) == parts
    decreases |parts|, |parts[0]|
  {
    if |parts| == 1 {
      SplitNoSep(parts[0], sep);
    } else if parts[0] == [] {
      SplitJoin(parts[1..], sep);
      var j := Join(parts, sep);
      assert j == [sep] + Join(parts[1..], sep);
      assert j[1..] == Join(parts[1..], sep);
      assert parts == [""] + parts[1..];
    } else {
      var c := parts[0][0];
      var parts' := [parts[0][1..]] + parts[1..];
      assert forall k :: 0 <= k < |parts'| ==> sep !in parts'[k] by {
        forall k | 0 <= k < |parts'| ensures sep !in parts'[k] {
          if k == 0 {
            assert parts[0] == [c] + parts[0][1..];
          } else {
            assert parts'[k] == parts[k];
          }
        }
      }
      SplitJoin(parts', sep);
      var j := Join(parts, sep);
      assert parts'[1..] == parts[1..];
      assert Join(parts', sep) == parts[0][1..] + [sep] + Join(parts[1..], sep);
      assert j == [c] + Join(parts', sep);
      assert j[1..] == Join(parts', sep);
      assert c != sep by { assert c == parts[0][0]; }
      assert [c] + parts[0][1..] == parts[0];
    }
  }

  lemma {:induction false} SplitNoSep(s: string, sep: char)
    requires sep !in s
    ensures Split(s, sep) == [s]
    decreases |s|
  {
    if s != [] {
      assert sep !in s[1..];
      SplitNoSep(s[1..], sep);
      assert [s[0]] + s[1..] == s;
    }
  }

  /** Accumulating `part + sep` over the split of `s` gives back `s` with
      one trailing separator. */
  lemma {:induction false} JoinTerminatedSplit(s: string, sep: char)
    ensures JoinTerminated(Split(s, sep), sep) == s + [sep]
    decreases |s|
  {
    if s != [] {
      JoinTerminatedSplit(s[1..], sep);
      var rest := Split(s[1..], sep);
      if s[0] == sep {
        assert Split(s, sep) == [""] + rest;
        assert ([""] + rest)[1..] == rest;
        assert s == [s[0]] + s[1..];
      } else {
        var parts := [[s[0]] + rest[0]] + rest[1..];
        assert Split(s, sep) == parts;
        assert parts[1..] == rest[1..];
        assert JoinTerminated(rest, sep) == rest[0] + [sep] + JoinTerminated(rest[1..], sep);
        calc {
          JoinTerminated(Split(s, sep), sep);
          ([s[0]] + rest[0]) + [sep] + JoinTerminated(rest[1..], sep);
          [s[0]] + (rest[0] + [sep] + JoinTerminated(rest[1..], sep));
          [s[0]] + JoinTerminated(rest, sep);
          [s[0]] + (s[1..] + [sep]);
          { assert s == [s[0]] + s[1..]; }
          s + [sep];
        }
      }
    }
  }

  lemma {:induction false} JoinTerminatedAppend(parts: seq<string>, p: string, sep: char)
    ensures JoinTerminated(parts + [p], sep) == JoinTerminated(parts, sep) + p + [sep]
    decreases |parts|
  {
    if parts != [] {
      assert (parts + [p])[1..] == parts[1..] + [p];
      JoinTerminatedAppend(parts[1..], p, sep);
    }
  }

  /** The last component of a split contains no separator, ends the string,
      and is either the whole string or preceded by a separator. */
  lemma {:induction false} LastComponentShape(s: string, sep: char)
    ensures var t := LastComponent(s, sep);
      && sep !in t
      && EndsWith(s, t)
      && (t == s || (|t| < |s| && s[|s| - |t| - 1] == sep))
    decreases |s|
  {
    SplitPartsFree(s, sep);
    if s != [] {
      LastComponentShape(s[1..], sep);
      var rest := Split(s[1..], sep);
      var t := LastComponent(s[1..], sep);
      assert t == rest[|rest| - 1];
      if s[0] == sep {
        assert Split(s, sep) == [""] + rest;
        assert LastComponent(s, sep) == t;
        assert s[1..][|s[1..]| - |t|..] == s[|s| - |t|..];
        if t == s[1..] {
          assert s[|s| - |t| - 1] == s[0];
        } else {
          assert s[|s| - |t| - 1] == s[1..][|s[1..]| - |t| - 1];
        }
      } else {
        var parts := [[s[0]] + rest[0]] + rest[1..];
        if |rest| == 1 {
          assert LastComponent(s, sep) == [s[0]] + rest[0];
          assert rest[0] == t;
          assert t == s[1..] by {
            JoinSplit(s[1..], sep);
            assert Join(rest, sep) == rest[0];
          }
          assert [s[0]] + s[1..] == s;
        } else {
          assert LastComponent(s, sep) == t;
          assert s[1..][|s[1..]| - |t|..] == s[|s| - |t|..];
          if t == s[1..] {
            SplitNoSep(s[1..], sep);
            assert false;
          } else {
            assert s[|s| - |t| - 1] == s[1..][|s[1..]| - |t| - 1];
          }
        }
      }
    }
  }

  /** `rstrip` leaves no trailing `c` and removes only copies of `c`. */
  lemma {:induction false} RStripShape(s: string, c: char)
    ensures var t := RStrip(s, c);
      && StartsWith(s, t)
      && (t == [] || t[|t| - 1] != c)
      && forall i :: |t| <= i < |s| ==> s[i] == c
    decreases |s|
  {
    if s != [] && s[|s| - 1] == c {
      RStripShape(s[..|s| - 1], c);
      var t := RStrip(s, c);
      assert s[..|s| - 1][..|t|] == s[..|t|];
    }
  }

  /** `lstrip` leaves no leading `c` and removes only copies of `c`. */
  lemma {:induction false} LStripShape(s: string, c: char)
    ensures var t := LStrip(s, c);
      && EndsWith(s, t)
      && (t == [] || t[0] != c)
      && forall i :: 0 <= i < |s| - |t| ==> s[i] == c
    decreases |s|
  {
    if s != [] && s[0] == c {
      LStripShape(s[1..], c);
      var t := LStrip(s, c);
      assert s[1..][|s[1..]| - |t|..] == s[|s| - |t|..];
    }
  }

  /** `strip(c)` yields the piece of the input between its leading and its
      trailing run of `c`, and that piece has no `c` at either end. */
  lemma StripShape(s: string, c: char)
    ensures var t, i := Strip(s, c), |s| - |LStrip(s, c)|;
      && (t == [] || (t[0] != c && t[|t| - 1] != c))
      && i + |t| <= |s| && s[i..i + |t|] == t
      && (forall j :: 0 <= j < i ==> s[j] == c)
      && (forall j :: i + |t| <= j < |s| ==> s[j] == c)
  {
    var l := LStrip(s, c);
    LStripShape(s, c);
    RStripShape(l, c);
    var t := RStrip(l, c);
    var i := |s| - |l|;
    assert l == s[i..];
    assert t == l[..|t|];
    assert s[i..i + |t|] == t;
    forall j | i + |t| <= j < |s| ensures s[j] == c {
      assert s[j] == l[j - i];
    }
    if t != [] {
      assert t[0] == l[0];
    }
  }

  /** A string without `c` at either end is left alone by `strip(c)`. */
  lemma StripUnquoted(s: string, c: char)
    requires s == [] || (s[0] != c && s[|s| - 1] != c)
    ensures Strip(s, c) == s
  {
  }

  /** Distinct numbers render as distinct decimal strings. */
  lemma {:induction false} DecimalStringInjective(a: nat, b: nat)
    requires DecimalString(a) == DecimalString(b)
    ensures a == b
    decreases a
  {
    var sa, sb := DecimalString(a), DecimalString(b);
    if a < 10 || b < 10 {
      assert |sa| == 1 <==> a < 10;
      assert |sb| == 1 <==> b < 10;
      assert "0123456789"[a] == "0123456789"[b];
    } else {
      assert sa[..|sa| - 1] == DecimalString(a / 10);
      assert sb[..|sb| - 1] == DecimalString(b / 10);
      DecimalStringInjective(a / 10, b / 10);
      assert "0123456789"[a % 10] == sa[|sa| - 1] == sb[|sb| - 1] == "0123456789"[b % 10];
      assert a % 10 == b % 10;
    }
  }
}
