/**
 * The few `java.lang.String` and `java.lang.Boolean` operations the two record
 * stores rely on: case-insensitive comparison and search, `trim`, `split(",")`
 * and the text form of a boolean.
 */
module JavaStrings {

  /** `Character.toLowerCase` on the ASCII letters; every other character is kept. */
  function LowerChar(c: char): char
  {
    if 'A' <= c <= 'Z' then (c as int + ('a' as int - 'A' as int)) as char else c
  }

  /** `String.toLowerCase`, character by character. */
  function Lower(s: string): string
  {
    seq(|s|, i requires 0 <= i < |s| => LowerChar(s[i]))
  }

  /** `String.equalsIgnoreCase`: same length and the same characters up to case. */
  predicate EqualsIgnoreCase(a: string, b: string)
  {
    Lower(a) == Lower(b)
  }

  /** `part` occurs in `s` starting at offset `i`. */
  predicate OccursAt(s: string, part: string, i: int)
  {
    0 <= i <= |s| - |part| && s[i..i + |part|] == part
  }

  /** `String.contains`: `part` occurs in `s` at some offset (the empty string occurs everywhere). */
  predicate Contains(s: string, part: string)
  {
    exists i | 0 <= i <= |s| - |part| :: OccursAt(s, part, i)
  }

  /** `s.toLowerCase().contains(part.toLowerCase())`, the test of every substring search. */
  predicate ContainsIgnoreCase(s: string, part: string)
  {
    Contains(Lower(s), Lower(part))
  }

  lemma EmptyPartMatchesAll(s: string)
    ensures ContainsIgnoreCase(s, "")
  {
    assert OccursAt(Lower(s), Lower(""), 0);
  }

  /** The characters `String.trim` removes from both ends: every code point up to U+0020. */
  predicate IsTrimmable(c: char)
  {
    c <= ' '
  }

  /** A string that `trim` leaves as it is. */
  predicate IsTrimmed(s: string)
  {
    s == [] || (!IsTrimmable(s[0]) && !IsTrimmable(s[|s| - 1]))
  }

  /** Drops the leading trimmable characters. */
  function TrimStart(s: string): string
  {
    if s != [] && IsTrimmable(s[0]) then TrimStart(s[1..]) else s
  }

  /** Drops the trailing trimmable characters. */
  function TrimEnd(s: string): string
  {
    if s != [] && IsTrimmable(s[|s| - 1]) then TrimEnd(s[..|s| - 1]) else s
  }

  /** `String.trim` */
  function Trim(s: string): string
  {
    TrimEnd(TrimStart(s))
  }

  /** What remains after TrimStart is a suffix that starts with a kept character; all that went is trimmable. */
  lemma {:induction false} TrimStartKeepsSuffix(s: string)
    ensures var r := TrimStart(s);
      && |r| <= |s| && r == s[|s| - |r|..]
      && (r == [] || !IsTrimmable(r[0]))
      && forall i :: 0 <= i < |s| - |r| ==> IsTrimmable(s[i])
  {
    if s != [] && IsTrimmable(s[0]) {
      var t := s[1..];
      TrimStartKeepsSuffix(t);
      var r := TrimStart(t);
      assert TrimStart(s) == r;
      assert t[|t| - |r|..] == s[|s| - |r|..];
      forall i | 0 <= i < |s| - |r|
        ensures IsTrimmable(s[i])
      {
        if i > 0 {
          assert s[i] == t[i - 1];
        }
      }
    }
  }

  /** What remains after TrimEnd is a prefix that ends with a kept character; all that went is trimmable. */
  lemma {:induction false} TrimEndKeepsPrefix(s: string)
    ensures var r := TrimEnd(s);
      && |r| <= |s| && r == s[..|r|]
      && (r == [] || !IsTrimmable(r[|r| - 1]))
      && forall i :: |r| <= i < |s| ==> IsTrimmable(s[i])
  {
    if s != [] && IsTrimmable(s[|s| - 1]) {
      var t := s[..|s| - 1];
      TrimEndKeepsPrefix(t);
      var r := TrimEnd(t);
      assert TrimEnd(s) == r;
      assert t[..|r|] == s[..|r|];
      forall i | |r| <= i < |s|
        ensures IsTrimmable(s[i])
      {
        if i < |s| - 1 {
          assert s[i] == t[i];
        }
      }
    }
  }

  /** `trim` returns a trimmed string: it is idempotent. */
  lemma TrimIsTrimmed(s: string)
    ensures IsTrimmed(Trim(s)) && Trim(Trim(s)) == Trim(s)
  {
    var t := TrimStart(s);
    TrimStartKeepsSuffix(s);
    TrimEndKeepsPrefix(t);
    var r := TrimEnd(t);
    if r != [] {
      assert r[0] == t[0];
    }
  }

  /** `trim` undoes the single space the line formats put after each comma. */
  lemma TrimAfterSpace(x: string)
    requires IsTrimmed(x)
    ensures Trim(x) == x && Trim(" " + x) == x
  {
    assert (" " + x)[1..] == x;
  }

  /**
   * Every field of `s` between commas, empty ones included: `s` with
   * k commas has k + 1 fields.
   */
  function Fields(s: string): (r: seq<string>)
    ensures |r| >= 1
  {
    if s == [] then [""]
    else
      var rest := Fields(s[1..]);
      if s[0] == ',' then [""] + rest else [[s[0]] + rest[0]] + rest[1..]
  }

  /** `String.join(",", parts)` */
  function Join(parts: seq<string>): string
    requires |parts| >= 1
  {
    if |parts| == 1 then parts[0] else parts[0] + "," + Join(parts[1..])
  }

  function DropTrailingEmpty(parts: seq<string>): (r: seq<string>)
    ensures |r| <= |parts| && r == parts[..|r|]
    ensures r == [] || r[|r| - 1] != ""
  {
    if parts != [] && parts[|parts| - 1] == "" then DropTrailingEmpty(parts[..|parts| - 1]) else parts
  }

  /**
   * `s.split(",")`: a string without a comma is its own single field;
   * otherwise the fields between commas, without the empty ones at the end.
   */
  function Split(s: string): seq<string>
  {
    if ',' !in s then [s] else DropTrailingEmpty(Fields(s))
  }

  /** A comma-free text is a single field. */
  lemma {:induction false} FieldsOfPlain(x: string)
    requires ',' !in x
    ensures Fields(x) == [x]
  {
    if x != [] {
      FieldsOfPlain(x[1..]);
      assert [x[0]] + x[1..] == x;
    }
  }

  /** The first comma of `x + "," + y` ends the first field when `x` has none. */
  lemma {:induction false} FieldsOfCons(x: string, y: string)
    requires ',' !in x
    ensures Fields(x + "," + y) == [x] + Fields(y)
  {
    var s := x + "," + y;
    if x == [] {
      assert s[1..] == y;
    } else {
      assert s[1..] == x[1..] + "," + y;
      FieldsOfCons(x[1..], y);
      assert [x[0]] + x[1..] == x;
    }
  }

  /** Splitting a joined line gives back its comma-free parts. */
  lemma {:induction false} FieldsOfJoin(parts: seq<string>)
    requires |parts| >= 1
    requires forall k :: 0 <= k < |parts| ==> ',' !in parts[k]
    ensures Fields(Join(parts)) == parts
  {
    if |parts| == 1 {
      FieldsOfPlain(parts[0]);
    } else {
      FieldsOfJoin(parts[1..]);
      FieldsOfCons(parts[0], Join(parts[1..]));
      assert [parts[0]] + parts[1..] == parts;
    }
  }

  /**
   * `split(",")` undoes the join of two or more comma-free parts when the
   * last part is not empty (an empty last part would be dropped).
   */
  lemma SplitOfJoin(parts: seq<string>)
    requires |parts| >= 2 && parts[|parts| - 1] != ""
    requires forall k :: 0 <= k < |parts| ==> ',' !in parts[k]
    ensures Split(Join(parts)) == parts
  {
    var line := Join(parts);
    assert line[|parts[0]|] == ',';
    FieldsOfJoin(parts);
  }

  lemma JoinOfTwo(a: string, b: string)
    ensures Join([a, b]) == a + "," + b
  {
    assert [a, b][1..] == [b];
  }

  lemma JoinOfFour(a: string, b: string, c: string, d: string)
    ensures Join([a, b, c, d]) == a + "," + b + "," + c + "," + d
  {
    assert [a, b, c, d][1..] == [b, c, d];
    assert [b, c, d][1..] == [c, d];
    JoinOfTwo(c, d);
  }

  /** `String.valueOf(boolean)` */
  function BooleanText(b: bool): string
  {
    if b then "true" else "false"
  }

  /** `Boolean.parseBoolean`: true exactly for "true" in any case. */
  predicate ParseBoolean(s: string)
  {
    EqualsIgnoreCase(s, "true")
  }

  lemma ParseBooleanText(b: bool)
    ensures ParseBoolean(BooleanText(b)) == b
  {
    if !b {
      assert Lower("false")[0] != Lower("true")[0];
    }
  }
}
