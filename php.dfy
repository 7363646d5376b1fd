/**
 * The slice of PHP's value model and string library the farm's code relies on:
 * a loosely typed value, its boolean conversion (`(bool)`, `empty`, `if ($x)`),
 * and the string functions `strtolower`, `explode`, `implode`, `trim` and `substr`.
 * Strings are sequences of characters; the code only ever handles ASCII names.
 */
module Php {

  /** A PHP value as the farm's settings, permissions and form data hold it. */
  datatype Value = Null | Bool(b: bool) | Int(i: int) | Str(s: string) | Arr(elems: seq<Value>)

  /**
   * PHP's conversion to boolean: `null`, `false`, `0`, `""`, `"0"` and the empty array
   * are false, everything else is true. `empty($v)` is `!Truthy(v)`.
   */
  predicate Truthy(v: Value) {
    match v
    case Null => false
    case Bool(b) => b
    case Int(i) => i != 0
    case Str(s) => s != "" && s != "0"
    case Arr(e) => |e| > 0
  }

  /** `empty($s)` on a string. */
  predicate EmptyString(s: string) {
    !Truthy(Str(s))
  }

  predicate IsDigit(c: char) {
    '0' <= c <= '9'
  }

  predicate IsLowerAlnumUnderscore(c: char) {
    'a' <= c <= 'z' || IsDigit(c) || c == '_'
  }

  /** ASCII `strtolower` on one character. */
  function LowerChar(c: char): (r: char)
    ensures 'A' <= c <= 'Z' ==> 'a' <= r <= 'z'
    ensures !('A' <= c <= 'Z') ==> r == c
  {
    if 'A' <= c <= 'Z' then (c as int + 32) as char else c
  }

  /** `strtolower($s)`: every ASCII upper-case letter replaced by its lower-case one. */
  function ToLower(s: string): (r: string)
    ensures |r| == |s|
    ensures forall i :: 0 <= i < |s| ==> r[i] == LowerChar(s[i])
    ensures forall i :: 0 <= i < |r| ==> !('A' <= r[i] <= 'Z')
  {
    if s == [] then [] else [LowerChar(s[0])] + ToLower(s[1..])
  }

  /** `substr($s, 0, $n)` for `$n >= 0`: the first `n` characters, or all of a shorter string. */
  function Prefix(s: string, n: nat): (r: string)
    ensures |r| == if |s| <= n then |s| else n
    ensures r <= s
  {
    if |s| <= n then s else s[..n]
  }

  /** PHP's `implode($sep, $parts)` with a one-character separator. */
  function Implode(sep: char, parts: seq<string>): string
  {
    if |parts| == 0 then ""
    else if |parts| == 1 then parts[0]
    else parts[0] + [sep] + Implode(sep, parts[1..])
  }

  /**
   * PHP's `explode($sep, $s)` with a one-character separator: the pieces between
   * separators, never fewer than one (an empty string gives `[""]`).
   */
  function Explode(sep: char, s: string): (parts: seq<string>)
    ensures |parts| >= 1
    ensures forall i :: 0 <= i < |parts| ==> sep !in parts[i]
  {
    if s == [] then [""]
    else
      var rest := Explode(sep, s[1..]);
      if s[0] == sep then [""] + rest
      else
        assert forall i :: 1 <= i < |rest| ==> ([[s[0]] + rest[0]] + rest[1..])[i] == rest[i];
        [[s[0]] + rest[0]] + rest[1..]
  }

  /** Joining the pieces again with the separator gives back the string. */
  lemma {:induction false} ImplodeExplode(sep: char, s: string)
    ensures Implode(sep, Explode(sep, s)) == s
  {
    if s != [] {
      ImplodeExplode(sep, s[1..]);
      var rest := Explode(sep, s[1..]);
      if s[0] == sep {
        assert [""] + rest == [""] + rest;
      } else {
        var parts := [[s[0]] + rest[0]] + rest[1..];
        if |rest| == 1 {
          assert parts == [[s[0]] + rest[0]];
        } else {
          assert parts[1..] == rest[1..];
          assert Implode(sep, rest) == rest[0] + [sep] + Implode(sep, rest[1..]);
        }
      }
    }
  }

  /** Splitting a join of separator-free pieces gives back the pieces. */
  lemma {:induction false} ExplodeImplode(sep: char, parts: seq<string>)
    requires |parts| >= 1
    requires forall i :: 0 <= i < |parts| ==> sep !in parts[i]
    ensures Explode(sep, Implode(sep, parts)) == parts
    decreases |parts|, |parts[0]|
  {
    var p := parts[0];
    if p == [] {
      if |parts| > 1 {
        ExplodeImplode(sep, parts[1..]);
        var s := Implode(sep, parts);
        assert s == [sep] + Implode(sep, parts[1..]);
        assert s[1..] == Implode(sep, parts[1..]);
        assert [""] + parts[1..] == parts;
      }
    } else {
      var tail := [p[1..]] + parts[1..];
      assert sep !in p[1..] by { assert forall c :: c in p[1..] ==> c in p; }
      assert forall i :: 1 <= i < |tail| ==> tail[i] == parts[i];
      ExplodeImplode(sep, tail);
      ImplodeHead(sep, parts);
      var s := Implode(sep, parts);
      assert s[1..] == Implode(sep, tail);
      assert [p[0]] + p[1..] == p;
      assert [[p[0]] + p[1..]] + parts[1..] == parts;
    }
  }

  /** Joining pieces whose first one is non-empty starts with that piece's first character. */
  lemma ImplodeHead(sep: char, parts: seq<string>)
    requires |parts| >= 1 && parts[0] != []
    ensures Implode(sep, parts) == [parts[0][0]] + Implode(sep, [parts[0][1..]] + parts[1..])
  {
    var p := parts[0];
    var tail := [p[1..]] + parts[1..];
    if |parts| > 1 {
      assert tail[1..] == parts[1..];
    }
  }

  /** The characters PHP's `trim` removes by default: space, tab, newline, CR, NUL, vertical tab. */
  predicate IsTrimChar(c: char) {
    c == ' ' || c == '\t' || c == '\n' || c == '\r' || c == '\0' || c == '\U{000B}'
  }

  /** `ltrim($s)`: the suffix left after dropping leading trim characters. */
  function TrimLeft(s: string): (r: string)
    ensures |r| <= |s| && r == s[|s| - |r|..]
    ensures forall i :: 0 <= i < |s| - |r| ==> IsTrimChar(s[i])
    ensures r != [] ==> !IsTrimChar(r[0])
  {
    if s != [] && IsTrimChar(s[0]) then TrimLeft(s[1..]) else s
  }

  /** `rtrim($s)`: the prefix left after dropping trailing trim characters. */
  function TrimRight(s: string): (r: string)
    ensures |r| <= |s| && r == s[..|r|]
    ensures forall i :: |r| <= i < |s| ==> IsTrimChar(s[i])
    ensures r != [] ==> !IsTrimChar(r[|r| - 1])
  {
    if s != [] && IsTrimChar(s[|s| - 1]) then TrimRight(s[..|s| - 1]) else s
  }

  /**
   * `trim($s)`: the middle of `s` between its leading and trailing runs of trim
   * characters; it neither starts nor ends with one.
   */
  function Trim(s: string): (r: string)
    ensures |TrimLeft(s)| >= |r|
    ensures r == s[|s| - |TrimLeft(s)|..|s| - |TrimLeft(s)| + |r|]
    ensures forall i :: 0 <= i < |s| - |TrimLeft(s)| ==> IsTrimChar(s[i])
    ensures forall i :: |s| - |TrimLeft(s)| + |r| <= i < |s| ==> IsTrimChar(s[i])
    ensures r != [] ==> !IsTrimChar(r[0]) && !IsTrimChar(r[|r| - 1])
  {
    var l := TrimLeft(s);
    var r := TrimRight(l);
    TrimSlice(s, l, r);
    r
  }

  /** The middle `r` of the suffix `l` of `s` is a slice of `s`, and what lies beyond it in `s` is what lies beyond it in `l`. */
  lemma TrimSlice(s: string, l: string, r: string)
    requires |l| <= |s| && l == s[|s| - |l|..]
    requires |r| <= |l| && r == l[..|r|]
    ensures r == s[|s| - |l|..|s| - |l| + |r|]
    ensures forall i :: |s| - |l| + |r| <= i < |s| ==> s[i] == l[i - (|s| - |l|)]
  {
  }

  /** A string that neither starts nor ends with a trim character is its own trim. */
  lemma TrimFixed(s: string)
    requires s != [] ==> !IsTrimChar(s[0]) && !IsTrimChar(s[|s| - 1])
    ensures Trim(s) == s
  {
  }

  /** Trimming twice is trimming once. */
  lemma TrimIdempotent(s: string)
    ensures Trim(Trim(s)) == Trim(s)
  {
    TrimFixed(Trim(s));
  }
}
