/**
 The text layer of the dump: how `operator<<` writes integers in decimal,
 how fields are joined with a separator and lines are terminated with LF,
 and the inverse operations (splitting and parsing) that let the lemmas
 state what a reader of the two CSV files gets back.
 */
module Csv {
  import opened Wrappers

  predicate IsDigit(c: char) {
    '0' <= c <= '9'
  }

  predicate AllDigits(s: string) {
    forall i :: 0 <= i < |s| ==> IsDigit(s[i])
  }

  function DigitChar(d: nat): (c: char)
    requires d < 10
    ensures IsDigit(c) && (c as int) - ('0' as int) == d
  {
    (('0' as int) + d) as char
  }

  function DigitValue(c: char): nat
    requires IsDigit(c)
  {
    (c as int) - ('0' as int)
  }

  /** The decimal text of `n`, as a stream prints an unsigned integer:
      digits only, most significant first, no leading zero. */
  function NatToString(n: nat): (s: string)
    ensures |s| > 0 && AllDigits(s)
    ensures |s| > 1 ==> s[0] != '0'
    decreases n
  {
    if n < 10 then [DigitChar(n)] else NatToString(n / 10) + [DigitChar(n % 10)]
  }

  /** The decimal text of a signed integer (a `std::time_t`): a minus sign
      before the digits of a negative value. */
  function IntToString(x: int): (s: string)
    ensures |s| > 0
    ensures forall i :: 0 <= i < |s| ==> IsDigit(s[i]) || (i == 0 && s[i] == '-')
    ensures s[0] == '-' <==> x < 0
  {
    if x < 0 then "-" + NatToString(-x) else NatToString(x)
  }

  /** The value of a string of decimal digits, most significant first. */
  function DigitsValue(s: string): nat
    requires AllDigits(s)
  {
    if s == [] then 0 else DigitsValue(s[..|s| - 1]) * 10 + DigitValue(s[|s| - 1])
  }

  /** Reads back an unsigned decimal field; None when it is empty or holds a non-digit. */
  function ParseNat(s: string): Option<nat> {
    if |s| > 0 && AllDigits(s) then Some(DigitsValue(s)) else None
  }

  /** Reads back a signed decimal field (an optional leading minus sign). */
  function ParseInt(s: string): Option<int> {
    if |s| > 0 && s[0] == '-' then
      match ParseNat(s[1..])
      case Some(v) => Some(-(v as int))
      case None => None
    else
      match ParseNat(s)
      case Some(v) => Some(v as int)
      case None => None
  }

  lemma {:induction false} NatToStringRoundTrip(n: nat)
    ensures ParseNat(NatToString(n)) == Some(n)
    decreases n
  {
    var s := NatToString(n);
    if n < 10 {
      assert s[..|s| - 1] == [];
      assert DigitsValue(s) == DigitValue(s[0]) == n;
    } else {
      NatToStringRoundTrip(n / 10);
      assert s[..|s| - 1] == NatToString(n / 10);
      assert DigitValue(s[|s| - 1]) == n % 10;
    }
  }

  lemma IntToStringRoundTrip(x: int)
    ensures ParseInt(IntToString(x)) == Some(x)
  {
    var s := IntToString(x);
    if x < 0 {
      NatToStringRoundTrip(-x);
      assert s[1..] == NatToString(-x);
    } else {
      NatToStringRoundTrip(x);
    }
  }

  /** The fields written one after another with `sep` between neighbours:
      `f0 sep f1 sep ... sep fk`; the empty list gives the empty string. */
  function Join(fields: seq<string>, sep: char): string {
    if |fields| == 0 then ""
    else if |fields| == 1 then fields[0]
    else Join(fields[..|fields| - 1], sep) + [sep] + fields[|fields| - 1]
  }

  /** Joining one more field writes the separator and that field after the others. */
  lemma JoinSnoc(fields: seq<string>, j: nat, sep: char)
    requires 1 <= j < |fields|
    ensures Join(fields[..j + 1], sep) == Join(fields[..j], sep) + [sep] + fields[j]
  {
    assert fields[..j + 1][..j] == fields[..j];
  }

  /** Cuts `s` at every occurrence of `sep` (the reading side of a CSV file);
      there is always at least one part. */
  function Split(s: string, sep: char): (parts: seq<string>)
    ensures |parts| > 0
  {
    if |s| == 0 then [""]
    else
      var init := Split(s[..|s| - 1], sep);
      if s[|s| - 1] == sep then init + [""]
      else init[..|init| - 1] + [init[|init| - 1] + [s[|s| - 1]]]
  }

  /** The text of a file whose lines are `lines`, each one terminated by LF. */
  function Unlines(lines: seq<string>): string {
    if |lines| == 0 then "" else Unlines(lines[..|lines| - 1]) + lines[|lines| - 1] + "\n"
  }

  /** The text of the first `i + 1` lines is that of the first `i` lines and line `i`. */
  lemma UnlinesSnoc(lines: seq<string>, i: nat)
    requires i < |lines|
    ensures Unlines(lines[..i + 1]) == Unlines(lines[..i]) + lines[i] + "\n"
  {
    assert lines[..i + 1][..i] == lines[..i];
  }

  /** The LF-terminated lines of a text (a final line without LF counts too). */
  function Lines(s: string): seq<string> {
    var parts := Split(s, '\n');
    if parts[|parts| - 1] == "" then parts[..|parts| - 1] else parts
  }

  /** A character other than the separator extends the last part. */
  lemma SplitAppendChar(p: string, x: char, sep: char)
    requires x != sep
    ensures var parts := Split(p, sep);
            Split(p + [x], sep) == parts[..|parts| - 1] + [parts[|parts| - 1] + [x]]
  {
    assert (p + [x])[..|p|] == p;
  }

  /** Appending separator-free text to `p` extends its last part only. */
  lemma {:induction false} SplitAppend(p: string, f: string, sep: char)
    requires sep !in f
    ensures var parts := Split(p, sep);
            Split(p + f, sep) == parts[..|parts| - 1] + [parts[|parts| - 1] + f]
    decreases |f|
  {
    if |f| == 0 {
      var parts := Split(p, sep);
      assert p + f == p;
      assert parts[|parts| - 1] + f == parts[|parts| - 1];
      assert parts[..|parts| - 1] + [parts[|parts| - 1]] == parts;
    } else {
      var f', x := f[..|f| - 1], f[|f| - 1];
      var parts := Split(p, sep);
      SplitAppend(p, f', sep);
      var init := Split(p + f', sep);
      assert f == f' + [x];
      assert p + f == (p + f') + [x];
      SplitAppendChar(p + f', x, sep);
      assert init[..|init| - 1] == parts[..|parts| - 1];
      assert init[|init| - 1] + [x] == parts[|parts| - 1] + f;
    }
  }

  /** A separator ends the last part and opens an empty one. */
  lemma SplitAppendSep(p: string, sep: char)
    ensures Split(p + [sep], sep) == Split(p, sep) + [""]
  {
    assert (p + [sep])[..|p|] == p;
  }

  /** Splitting undoes joining, as long as no field holds the separator. */
  lemma {:induction false} SplitJoin(fields: seq<string>, sep: char)
    requires |fields| > 0
    requires forall k :: 0 <= k < |fields| ==> sep !in fields[k]
    ensures Split(Join(fields, sep), sep) == fields
    decreases |fields|
  {
    var last := fields[|fields| - 1];
    if |fields| == 1 {
      SplitAppend("", last, sep);
      assert "" + last == last;
    } else {
      var init := fields[..|fields| - 1];
      var j := Join(init, sep);
      assert Join(fields, sep) == j + [sep] + last;
      SplitJoin(init, sep);
      SplitAppendSep(j, sep);
      assert Split(j + [sep], sep) == init + [""];
      SplitAppend(j + [sep], last, sep);
      assert (init + [""])[..|init|] == init;
      assert "" + last == last;
      assert fields == init + [last];
    }
  }

  /** A character other than the separator occurs in the joined text only if it occurs in a field. */
  lemma {:induction false} JoinFree(fields: seq<string>, sep: char, c: char)
    requires c != sep
    requires forall k :: 0 <= k < |fields| ==> c !in fields[k]
    ensures c !in Join(fields, sep)
    decreases |fields|
  {
    if |fields| > 1 {
      JoinFree(fields[..|fields| - 1], sep, c);
    }
  }

  /** Splitting the text of `lines` at LF gives the lines and an empty remainder. */
  lemma {:induction false} SplitUnlines(lines: seq<string>)
    requires forall k :: 0 <= k < |lines| ==> '\n' !in lines[k]
    ensures Split(Unlines(lines), '\n') == lines + [""]
    decreases |lines|
  {
    if |lines| > 0 {
      var init := lines[..|lines| - 1];
      var last := lines[|lines| - 1];
      var u := Unlines(init);
      SplitUnlines(init);
      SplitAppend(u, last, '\n');
      SplitLastLine(init, last, Split(u + last, '\n'));
      SplitAppendSep(u + last, '\n');
    }
  }

  /** The regrouping step of `SplitUnlines`: putting the last line after the empty
      remainder of the earlier lines gives the earlier lines and the last line. Stated
      on abstract sequences so the solver need not unfold `Split` or `Unlines` for it. */
  lemma SplitLastLine(init: seq<string>, last: string, parts: seq<string>)
    requires parts == (init + [""])[..|init|] + [(init + [""])[|init|] + last]
    ensures parts == init + [last]
  {
    assert (init + [""])[..|init|] == init;
    assert "" + last == last;
  }

  /** Reading the lines back from a text built by Unlines gives the lines it was built from. */
  lemma LinesUnlines(lines: seq<string>)
    requires forall k :: 0 <= k < |lines| ==> '\n' !in lines[k]
    ensures Lines(Unlines(lines)) == lines
  {
    SplitUnlines(lines);
    assert (lines + [""])[..|lines|] == lines;
  }
}
