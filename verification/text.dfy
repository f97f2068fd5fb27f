/** The few operations of Go's `strings` package that the installer relies on.
    Strings are sequences of characters, while Go's strings are sequences of
    bytes: the two agree on ASCII text only. */
module Text {

  /** `parts` glued back together with `sep` between neighbours
      (strings.Join with a one-character separator). */
  function JoinWith(parts: seq<string>, sep: char): string
    decreases |parts|
  {
    if |parts| == 0 then ""
    else if |parts| == 1 then parts[0]
    else parts[0] + [sep] + JoinWith(parts[1..], sep)
  }

  /** strings.Split(s, string(sep)): the pieces of `s` between separators,
      always at least one, none containing the separator, and joining them
      back gives `s` again. */
  function Split(s: string, sep: char): (parts: seq<string>)
    ensures |parts| >= 1
    ensures forall i :: 0 <= i < |parts| ==> sep !in parts[i]
    ensures JoinWith(parts, sep) == s
    decreases |s|
  {
    if |s| == 0 then [""]
    else
      var rest := Split(s[1..], sep);
      if s[0] == sep then
        assert s == [sep] + s[1..];
        [""] + rest
      else
        var parts := [[s[0]] + rest[0]] + rest[1..];
        assert parts[1..] == rest[1..];
        assert s == [s[0]] + s[1..];
        parts
  }

  /** The first piece of a split is exactly the text before the first
      separator: `d` is the first piece iff `d` holds no separator and is
      either all of `s` or a prefix of `s` followed by the separator. */
  lemma {:induction false} FirstPiece(s: string, sep: char, d: string)
    ensures Split(s, sep)[0] == d <==>
      sep !in d && (d == s || (|d| < |s| && s[..|d|] == d && s[|d|] == sep))
  {
    var parts := Split(s, sep);
    var p := parts[0];
    if |parts| > 1 {
      assert s == p + [sep] + JoinWith(parts[1..], sep);
      assert s[..|p|] == p && s[|p|] == sep;
    } else {
      assert s == p;
    }
    if sep !in d && (d == s || (|d| < |s| && s[..|d|] == d && s[|d|] == sep)) {
      assert p == s[..|p|] == d;
    }
  }

  /** Splitting text that starts with a separator-free piece `a` and a
      separator yields `a` followed by the pieces of the remainder. */
  lemma {:induction false} SplitAfterPiece(a: string, sep: char, b: string)
    requires sep !in a
    ensures Split(a + [sep] + b, sep) == [a] + Split(b, sep)
    decreases |a|
  {
    if |a| == 0 {
      assert a + [sep] + b == [sep] + b;
      assert ([sep] + b)[1..] == b;
    } else {
      assert (a + [sep] + b)[1..] == a[1..] + [sep] + b;
      SplitAfterPiece(a[1..], sep, b);
      assert [a[0]] + a[1..] == a;
    }
  }

  /** `s` holds a CR immediately followed by an LF somewhere. */
  predicate HasCrlf(s: string)
    decreases |s|
  {
    |s| >= 2 && ((s[0] == '\r' && s[1] == '\n') || HasCrlf(s[1..]))
  }

  /** strings.Replace(s, "\r\n", "\n", -1): every CR LF pair, scanned left to
      right without overlap, becomes a single LF. */
  function ReplaceCrlf(s: string): (r: string)
    ensures |r| <= |s|
    decreases |s|
  {
    if |s| == 0 then ""
    else if |s| >= 2 && s[0] == '\r' && s[1] == '\n' then "\n" + ReplaceCrlf(s[2..])
    else [s[0]] + ReplaceCrlf(s[1..])
  }

  /** Text without a CR LF pair comes back unchanged, and text with one
      comes back strictly shorter. */
  lemma {:induction false} ReplaceCrlfKeepsPlainText(s: string)
    ensures !HasCrlf(s) ==> ReplaceCrlf(s) == s
    ensures HasCrlf(s) ==> |ReplaceCrlf(s)| < |s|
    decreases |s|
  {
    if |s| >= 2 && s[0] == '\r' && s[1] == '\n' {
    } else if |s| > 0 {
      ReplaceCrlfKeepsPlainText(s[1..]);
      assert s == [s[0]] + s[1..];
    }
  }

  /** Normalising text in two parts gives the two parts normalised, when no
      CR LF pair straddles the boundary: the first part does not end in CR. */
  lemma {:induction false} ReplaceCrlfAppend(a: string, b: string)
    requires |a| == 0 || a[|a| - 1] != '\r'
    ensures ReplaceCrlf(a + b) == ReplaceCrlf(a) + ReplaceCrlf(b)
    decreases |a|
  {
    if |a| == 0 {
      assert a + b == b;
    } else if |a| >= 2 && a[0] == '\r' && a[1] == '\n' {
      ReplaceCrlfAppend(a[2..], b);
      PairStep(a, b);
    } else {
      ReplaceCrlfAppend(a[1..], b);
      CharStep(a, b);
    }
  }

  /** The step of ReplaceCrlfAppend over a leading CR LF pair. */
  lemma PairStep(a: string, b: string)
    requires |a| >= 2 && a[0] == '\r' && a[1] == '\n'
    requires ReplaceCrlf(a[2..] + b) == ReplaceCrlf(a[2..]) + ReplaceCrlf(b)
    ensures ReplaceCrlf(a + b) == ReplaceCrlf(a) + ReplaceCrlf(b)
  {
    var ab := a + b;
    assert ab[0] == '\r' && ab[1] == '\n';
    assert ab[2..] == a[2..] + b;
    UnfoldPair(ab);
    UnfoldPair(a);
    Regroup("\n", ReplaceCrlf(a[2..]), ReplaceCrlf(b));
  }

  /** One step of the scan over a CR LF pair, and over any other character. */
  lemma UnfoldPair(s: string)
    requires |s| >= 2 && s[0] == '\r' && s[1] == '\n'
    ensures ReplaceCrlf(s) == "\n" + ReplaceCrlf(s[2..])
  {
  }

  /** The step of ReplaceCrlfAppend over a leading character that does not
      start a CR LF pair. */
  lemma CharStep(a: string, b: string)
    requires |a| >= 1 && a[|a| - 1] != '\r'
    requires !(|a| >= 2 && a[0] == '\r' && a[1] == '\n')
    requires ReplaceCrlf(a[1..] + b) == ReplaceCrlf(a[1..]) + ReplaceCrlf(b)
    ensures ReplaceCrlf(a + b) == ReplaceCrlf(a) + ReplaceCrlf(b)
  {
    HeadOfAppend(a, b);
    UnfoldPlain(a + b);
    UnfoldPlain(a);
    Regroup([a[0]], ReplaceCrlf(a[1..]), ReplaceCrlf(b));
  }

  lemma HeadOfAppend(a: string, b: string)
    requires |a| >= 1
    ensures (a + b)[0] == a[0]
    ensures |a| >= 2 ==> (a + b)[1] == a[1]
    ensures (a + b)[1..] == a[1..] + b
  {
  }

  lemma UnfoldPlain(s: string)
    requires |s| >= 1 && !(|s| >= 2 && s[0] == '\r' && s[1] == '\n')
    ensures ReplaceCrlf(s) == [s[0]] + ReplaceCrlf(s[1..])
  {
  }

  lemma Regroup(x: string, y: string, z: string)
    ensures x + (y + z) == (x + y) + z
  {
  }

  /** A CR LF pair after text that does not end in CR becomes one LF, and the
      text on either side is normalised on its own. */
  lemma ReplaceCrlfAtBoundary(a: string, b: string)
    requires |a| == 0 || a[|a| - 1] != '\r'
    ensures ReplaceCrlf(a + "\r\n" + b) == ReplaceCrlf(a) + "\n" + ReplaceCrlf(b)
  {
    ReplaceCrlfAppend(a, "\r\n" + b);
    assert a + "\r\n" + b == a + ("\r\n" + b);
    assert ("\r\n" + b)[2..] == b;
  }

  /** Windows line endings: every LF written as CR LF. */
  function ToCrlf(t: string): string
    decreases |t|
  {
    if |t| == 0 then ""
    else (if t[0] == '\n' then "\r\n" else [t[0]]) + ToCrlf(t[1..])
  }

  /** Normalising text written with Windows line endings gives back the
      original text, provided it held no carriage return of its own. */
  lemma {:induction false} ReplaceCrlfUndoesToCrlf(t: string)
    requires '\r' !in t
    ensures ReplaceCrlf(ToCrlf(t)) == t
    decreases |t|
  {
    if |t| > 0 {
      assert t[0] in t;
      assert forall c :: c in t[1..] ==> c in t;
      ReplaceCrlfUndoesToCrlf(t[1..]);
      var tail := ToCrlf(t[1..]);
      if t[0] == '\n' {
        assert ToCrlf(t) == "\r\n" + tail;
        assert ("\r\n" + tail)[2..] == tail;
      } else {
        assert ToCrlf(t) == [t[0]] + tail;
        assert ([t[0]] + tail)[1..] == tail;
      }
      assert t == [t[0]] + t[1..];
    }
  }

  lemma {:induction false} ToCrlfAppend(a: string, b: string)
    ensures ToCrlf(a + b) == ToCrlf(a) + ToCrlf(b)
    decreases |a|
  {
    if |a| == 0 {
      assert a + b == b;
    } else {
      assert (a + b)[1..] == a[1..] + b;
      ToCrlfAppend(a[1..], b);
    }
  }

  lemma {:induction false} ToCrlfWithoutLf(a: string)
    requires '\n' !in a
    ensures ToCrlf(a) == a
    decreases |a|
  {
    if |a| > 0 {
      assert a[0] in a;
      assert forall c :: c in a[1..] ==> c in a;
      ToCrlfWithoutLf(a[1..]);
      assert a == [a[0]] + a[1..];
    }
  }

  /** A line terminated by LF is written as the same line terminated by CR LF. */
  lemma LineToCrlf(line: string)
    requires '\n' !in line
    ensures ToCrlf(line + "\n") == line + "\r\n"
  {
    ToCrlfAppend(line, "\n");
    ToCrlfWithoutLf(line);
    assert ToCrlf("\n") == "\r\n" + ToCrlf("");
  }
}
