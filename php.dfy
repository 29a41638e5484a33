/** The small part of PHP's runtime semantics that the middleware relies on:
    truthiness of strings, `strtolower`, `str_replace(' ', '', ...)`,
    `explode(',', ...)`, and the foreign built-ins (`preg_match`, `gzencode`,
    `gzdeflate`) whose behaviour is not modelled and is passed in instead. */
module Php {

  /** PHP's nullable value (`?string`, `null`). */
  datatype Option<+T> = None | Some(value: T)

  /** A value of PHP type `string|false`, as returned by `gzencode` and `gzdeflate`. */
  datatype StringOrFalse = Str(s: string) | False

  /** What `preg_match` returns: `1` on a match, `0` on no match, `false` on error. */
  datatype PregResult = One | Zero | PregFalse

  /** The foreign functions the core calls, left uninterpreted: any total
      function of the right type may stand for each of them. */
  datatype Builtins = Builtins(
    pregMatch: (string, string) -> PregResult,
    gzencode: string -> StringOrFalse,
    gzdeflate: string -> StringOrFalse)

  /** A PHP string is falsy exactly when it is "" or "0". */
  predicate IsFalsyString(s: string)
  {
    s == "" || s == "0"
  }

  /** `!$v` for a `string|false` value. */
  predicate IsFalsy(v: StringOrFalse)
  {
    v.False? || IsFalsyString(v.s)
  }

  // ---------------------------------------------------------------------------
  // strtolower / strtoupper (byte-wise, ASCII only, as in PHP 8.2 and later)

  function LowerChar(c: char): (r: char)
    ensures 'A' <= c <= 'Z' ==> 'a' <= r <= 'z' && r as int - c as int == 32
    ensures !('A' <= c <= 'Z') ==> r == c
  {
    if 'A' <= c <= 'Z' then (c as int + 32) as char else c
  }

  function UpperChar(c: char): (r: char)
    ensures 'a' <= c <= 'z' ==> 'A' <= r <= 'Z' && c as int - r as int == 32
    ensures !('a' <= c <= 'z') ==> r == c
  {
    if 'a' <= c <= 'z' then (c as int - 32) as char else c
  }

  /** `strtolower($s)`: every ASCII upper-case letter replaced by its lower-case
      counterpart, every other byte kept in place. */
  function StrToLower(s: string): (r: string)
    ensures |r| == |s|
    ensures forall i :: 0 <= i < |s| ==> r[i] == LowerChar(s[i])
  {
    if s == "" then "" else [LowerChar(s[0])] + StrToLower(s[1..])
  }

  /** `strtoupper($s)`. */
  function StrToUpper(s: string): (r: string)
    ensures |r| == |s|
    ensures forall i :: 0 <= i < |s| ==> r[i] == UpperChar(s[i])
  {
    if s == "" then "" else [UpperChar(s[0])] + StrToUpper(s[1..])
  }

  /** `strtolower($s)` is `l` when `l` agrees with `$s` letter by letter up to case. */
  lemma LowerOf(s: string, l: string)
    requires |s| == |l|
    requires forall i :: 0 <= i < |s| ==> LowerChar(s[i]) == l[i]
    ensures StrToLower(s) == l
  {
  }

  /** Lower-casing forgets the case a string was written in: upper-casing first
      changes nothing about the lower-case form, and lower-casing is idempotent. */
  lemma StrToLowerForgetsCase(s: string)
    ensures StrToLower(StrToUpper(s)) == StrToLower(s)
    ensures StrToLower(StrToLower(s)) == StrToLower(s)
  {
    var u, l := StrToUpper(s), StrToLower(s);
    forall i | 0 <= i < |s|
      ensures LowerChar(u[i]) == l[i] && LowerChar(l[i]) == l[i]
    {
    }
    LowerOf(u, l);
    LowerOf(l, l);
  }

  /** Lower-casing never introduces or removes a character that is not a letter:
      a byte outside 'A'..'Z' and 'a'..'z' occurs in `strtolower($s)` exactly
      where it occurs in `$s`. */
  lemma StrToLowerKeepsNonLetter(s: string, c: char)
    requires !('A' <= c <= 'Z') && !('a' <= c <= 'z')
    ensures c in StrToLower(s) <==> c in s
  {
    var l := StrToLower(s);
    if c in s {
      var i :| 0 <= i < |s| && s[i] == c;
      assert l[i] == c;
    }
    if c in l {
      var i :| 0 <= i < |l| && l[i] == c;
      assert s[i] == c;
    }
  }

  // ---------------------------------------------------------------------------
  // str_replace(' ', '', $s)

  /** `str_replace(' ', '', $s)`: the string with every space (U+0020, and no
      other white space) deleted. */
  function RemoveSpaces(s: string): (r: string)
    ensures ' ' !in r
    ensures |r| <= |s|
  {
    if s == "" then ""
    else if s[0] == ' ' then RemoveSpaces(s[1..])
    else [s[0]] + RemoveSpaces(s[1..])
  }

  /** Only spaces are deleted: every other character keeps its number of
      occurrences. */
  lemma {:induction false} RemoveSpacesKeepsOthers(s: string)
    ensures multiset(RemoveSpaces(s)) == multiset(s)[' ' := 0]
  {
    if s != "" {
      assert s == [s[0]] + s[1..];
      RemoveSpacesKeepsOthers(s[1..]);
    }
  }

  /** Deleting spaces keeps the order of what remains: it distributes over
      concatenation. */
  lemma {:induction false} RemoveSpacesConcat(a: string, b: string)
    ensures RemoveSpaces(a + b) == RemoveSpaces(a) + RemoveSpaces(b)
  {
    if a == "" {
      assert a + b == b;
    } else {
      assert (a + b)[0] == a[0] && (a + b)[1..] == a[1..] + b;
      RemoveSpacesConcat(a[1..], b);
    }
  }

  /** A space between two space-free strings vanishes: `gzip, deflate` becomes
      `gzip,deflate`. */
  lemma RemoveSpacesBetween(a: string, c: string)
    requires ' ' !in a && ' ' !in c
    ensures RemoveSpaces(a + " " + c) == a + c
  {
    assert a + " " + c == a + (" " + c);
    RemoveSpacesConcat(a, " " + c);
    assert (" " + c)[0] == ' ' && (" " + c)[1..] == c;
    RemoveSpacesIdentity(a);
    RemoveSpacesIdentity(c);
  }

  /** A string without spaces is left as it is, so removing spaces is idempotent. */
  lemma {:induction false} RemoveSpacesIdentity(s: string)
    requires ' ' !in s
    ensures RemoveSpaces(s) == s
  {
    if s != "" {
      assert s[0] != ' ' && ' ' !in s[1..];
      RemoveSpacesIdentity(s[1..]);
    }
  }

  // ---------------------------------------------------------------------------
  // explode(',', $s) and implode(',', $parts)

  /** `implode(',', $parts)`. */
  function Implode(parts: seq<string>): string
  {
    if |parts| == 0 then ""
    else if |parts| == 1 then parts[0]
    else parts[0] + "," + Implode(parts[1..])
  }

  /** `explode(',', $s)`: the maximal comma-free pieces of `$s`, in order. There is
      always at least one piece (`explode(',', '')` is `['']`), and joining the
      pieces with commas gives back `$s`. */
  function Explode(s: string): (parts: seq<string>)
    ensures |parts| >= 1
    ensures forall i :: 0 <= i < |parts| ==> ',' !in parts[i]
    ensures Implode(parts) == s
  {
    if s == "" then [""]
    else
      var rest := Explode(s[1..]);
      if s[0] == ',' then
        assert ([""] + rest)[1..] == rest;
        [""] + rest
      else
        var parts := [[s[0]] + rest[0]] + rest[1..];
        assert parts[1..] == rest[1..];
        assert |rest| > 1 ==> Implode(rest) == rest[0] + "," + Implode(rest[1..]);
        parts
  }

  /** Every character of every piece survives in the comma-join. */
  lemma {:induction false} ImplodeKeeps(parts: seq<string>, i: nat, c: char)
    requires i < |parts| && c in parts[i]
    ensures c in Implode(parts)
  {
    if |parts| > 1 {
      if i == 0 {
        assert Implode(parts) == parts[0] + ("," + Implode(parts[1..]));
      } else {
        ImplodeKeeps(parts[1..], i - 1, c);
      }
    }
  }

  /** The other half of the round trip: exploding the comma-join of comma-free
      pieces gives the pieces back. */
  lemma {:induction false} ExplodeImplode(parts: seq<string>)
    requires |parts| >= 1
    requires forall i :: 0 <= i < |parts| ==> ',' !in parts[i]
    ensures Explode(Implode(parts)) == parts
  {
    if |parts| == 1 {
      ExplodeCommaFree(parts[0]);
    } else {
      ExplodeImplode(parts[1..]);
      ExplodePrefix(parts[0], Implode(parts[1..]));
    }
  }

  /** A comma-free string explodes into itself alone. */
  lemma {:induction false} ExplodeCommaFree(s: string)
    requires ',' !in s
    ensures Explode(s) == [s]
  {
    if s != "" {
      assert ',' !in s[1..];
      ExplodeCommaFree(s[1..]);
    }
  }

  /** Exploding `w + "," + t` for a comma-free `w` gives `w` followed by the
      pieces of `t`. */
  lemma {:induction false} ExplodePrefix(w: string, t: string)
    requires ',' !in w
    ensures Explode(w + "," + t) == [w] + Explode(t)
  {
    if w == "" {
      assert ("," + t)[1..] == t;
    } else {
      assert (w + "," + t)[1..] == w[1..] + "," + t;
      ExplodePrefix(w[1..], t);
      assert [w[0]] + w[1..] == w;
    }
  }
}
