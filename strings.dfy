/**
 * The few pieces of Go's `strings` and `strconv` packages that the request
 * handlers rely on: `strings.Split`, `strings.ToLower` (over ASCII),
 * `strings.TrimPrefix` and `strconv.ParseBool`.
 */
module Strings {

  /** `strings.Split(s, string(sep))` for a one-character separator: the
      pieces between separators, an empty piece where two separators meet or
      where `s` starts or ends with one, and `[s]` when `sep` does not occur. */
  function Split(s: string, sep: char): (parts: seq<string>)
    ensures |parts| >= 1
  {
    if s == [] then [[]]
    else
      var rest := Split(s[1..], sep);
      if s[0] == sep then [[]] + rest
      else [[s[0]] + rest[0]] + rest[1..]
  }

  /** `strings.Join(parts, string(sep))`, the inverse of Split. */
  function Join(parts: seq<string>, sep: char): string
  {
    if parts == [] then []
    else if |parts| == 1 then parts[0]
    else parts[0] + [sep] + Join(parts[1..], sep)
  }

  /** No piece that Split returns contains the separator. */
  lemma {:induction false} SplitPiecesFree(s: string, sep: char)
    ensures forall i :: 0 <= i < |Split(s, sep)| ==> sep !in Split(s, sep)[i]
  {
    if s != [] {
      SplitPiecesFree(s[1..], sep);
      var rest := Split(s[1..], sep);
      if s[0] != sep {
        assert sep !in rest[0];
        assert sep !in [s[0]] + rest[0];
      }
    }
  }

  /** A string without the separator is a single piece. */
  lemma {:induction false} SplitWithoutSeparator(s: string, sep: char)
    ensures sep !in s ==> Split(s, sep) == [s]
  {
    if s != [] && sep !in s {
      assert sep !in s[1..];
      SplitWithoutSeparator(s[1..], sep);
      assert [s[0]] + s[1..] == s;
    }
  }

  /** How Split extends its pieces by one leading character: a separator
      opens a new empty piece, any other character joins the first piece. */
  function ConsPiece(c: char, sep: char, rest: seq<string>): seq<string>
    requires |rest| >= 1
  {
    if c == sep then [[]] + rest else [[c] + rest[0]] + rest[1..]
  }

  lemma SplitUnfold(s: string, sep: char)
    requires s != []
    ensures Split(s, sep) == ConsPiece(s[0], sep, Split(s[1..], sep))
  {
  }

  lemma ConsPieceAppend(c: char, sep: char, r1: seq<string>, r2: seq<string>)
    requires |r1| >= 1
    ensures ConsPiece(c, sep, r1 + r2) == ConsPiece(c, sep, r1) + r2
  {
    if c != sep {
      assert (r1 + r2)[0] == r1[0];
      assert (r1 + r2)[1..] == r1[1..] + r2;
    }
  }

  /** Splitting `a + sep + b` splits `a` and `b` separately. */
  lemma {:induction false} SplitAround(a: string, sep: char, b: string)
    ensures Split(a + [sep] + b, sep) == Split(a, sep) + Split(b, sep)
  {
    var s := a + [sep] + b;
    SplitUnfold(s, sep);
    if a == [] {
      assert s[0] == sep && s[1..] == b;
    } else {
      assert s[0] == a[0] && s[1..] == a[1..] + [sep] + b;
      SplitAround(a[1..], sep, b);
      SplitUnfold(a, sep);
      ConsPieceAppend(a[0], sep, Split(a[1..], sep), Split(b, sep));
    }
  }

  /** Joining the pieces of a split gives back the original string. */
  lemma {:induction false} JoinSplit(s: string, sep: char)
    ensures Join(Split(s, sep), sep) == s
  {
    if s != [] {
      JoinSplit(s[1..], sep);
      var rest := Split(s[1..], sep);
      if s[0] == sep {
        assert ([[]] + rest)[1..] == rest;
        assert [s[0]] + s[1..] == s;
      } else {
        var parts := [[s[0]] + rest[0]] + rest[1..];
        if |rest| == 1 {
          assert [s[0]] + s[1..] == s;
        } else {
          assert parts[1..] == rest[1..];
          assert Join(rest, sep) == rest[0] + [sep] + Join(rest[1..], sep);
          assert [s[0]] + s[1..] == s;
        }
      }
    }
  }

  /** Splitting a join of separator-free pieces gives back the pieces. */
  lemma {:induction false} SplitJoin(parts: seq<string>, sep: char)
    requires |parts| >= 1
    requires forall i :: 0 <= i < |parts| ==> sep !in parts[i]
    ensures Split(Join(parts, sep), sep) == parts
  {
    if |parts| == 1 {
      SplitWithoutSeparator(parts[0], sep);
    } else {
      SplitJoin(parts[1..], sep);
      SplitAround(parts[0], sep, Join(parts[1..], sep));
      SplitWithoutSeparator(parts[0], sep);
      assert [parts[0]] + parts[1..] == parts;
    }
  }

  /** The last piece of a string that contains the separator is the text
      after its last occurrence, and there is more than one piece. */
  lemma LastPieceAfterSeparator(base: string, sep: char, ext: string)
    requires sep !in ext
    ensures var parts := Split(base + [sep] + ext, sep);
      |parts| > 1 && parts[|parts| - 1] == ext
  {
    SplitAround(base, sep, ext);
    SplitWithoutSeparator(ext, sep);
  }

  /** ASCII lower-casing of one character; every other character is kept. */
  function LowerChar(c: char): char
  {
    if 'A' <= c <= 'Z' then (c as int - 'A' as int + 'a' as int) as char else c
  }

  /** `strings.ToLower` restricted to ASCII letters. */
  function ToLower(s: string): (r: string)
    ensures |r| == |s|
    ensures forall i :: 0 <= i < |s| ==> r[i] == LowerChar(s[i])
  {
    seq(|s|, i requires 0 <= i < |s| => LowerChar(s[i]))
  }

  /** Lower-casing is idempotent, keeps upper-case letters out of its result,
      and neither creates nor removes a given non-letter such as '.'. */
  lemma ToLowerFacts(s: string, c: char)
    requires !('A' <= c <= 'Z') && !('a' <= c <= 'z')
    ensures ToLower(ToLower(s)) == ToLower(s)
    ensures forall i :: 0 <= i < |s| ==> !('A' <= ToLower(s)[i] <= 'Z')
    ensures c in ToLower(s) <==> c in s
  {
    if c in ToLower(s) {
      var i :| 0 <= i < |s| && ToLower(s)[i] == c;
      assert s[i] == c;
    }
    if c in s {
      var i :| 0 <= i < |s| && s[i] == c;
      assert ToLower(s)[i] == c;
    }
  }

  /** `strings.TrimPrefix(s, prefix)`: drop one leading `prefix` if present. */
  function TrimPrefix(s: string, prefix: string): (r: string)
    ensures prefix <= s ==> prefix + r == s
    ensures !(prefix <= s) ==> r == s
  {
    if prefix <= s then s[|prefix|..] else s
  }

  /** `strconv.ParseBool` with its error discarded, as the handlers use it:
      true for exactly the six spellings Go accepts as true; every other text,
      including the five false spellings and anything unparsable, is false. */
  function ParseBool(s: string): (b: bool)
    ensures b ==> ToLower(s) in {"1", "t", "true"}
    ensures b <==> ToLower(s) in {"1", "t", "true"} && (s == ToLower(s) || s == "T" || s == "True" || s == "TRUE")
  {
    TrueSpellingsLower();
    s in {"1", "t", "T", "TRUE", "true", "True"}
  }

  lemma TrueSpellingsLower()
    ensures ToLower("1") == "1" && ToLower("t") == "t" && ToLower("T") == "t"
    ensures ToLower("true") == "true" && ToLower("True") == "true" && ToLower("TRUE") == "true"
  {
    assert ToLower("True")[0] == 't';
    assert ToLower("TRUE")[0] == 't' && ToLower("TRUE")[1] == 'r';
    assert ToLower("TRUE")[2] == 'u' && ToLower("TRUE")[3] == 'e';
  }
}
