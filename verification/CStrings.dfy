/**
 NUL-terminated strings in character buffers, and the library's way of writing one.
 */
module CStrings {

  const NUL: char := '\0'

  predicate NoNul(s: string) {
    forall i :: 0 <= i < |s| ==> s[i] != NUL
  }

  predicate Terminated(s: seq<char>) {
    exists i :: 0 <= i < |s| && s[i] == NUL
  }

  /** The string that a buffer holds: everything before the first NUL. */
  function Str(s: seq<char>): (t: string)
    requires Terminated(s)
    ensures |t| < |s| && s[|t|] == NUL && t == s[..|t|] && NoNul(t)
  {
    if s[0] == NUL then [] else
      var i :| 0 <= i < |s| && s[i] == NUL;
      assert s[1..][i - 1] == NUL;
      [s[0]] + Str(s[1..])
  }

  /** The first NUL is where the string ends. */
  lemma {:induction false} StrEnds(s: seq<char>, k: nat)
    requires k < |s| && s[k] == NUL && NoNul(s[..k])
    ensures Terminated(s) && Str(s) == s[..k]
  {
    var t := Str(s);
    assert forall i :: 0 <= i < k ==> s[i] == s[..k][i];
    assert forall i :: 0 <= i < |t| ==> s[i] == t[i];
  }

  /** A string is what stands before the first zero character, whatever comes behind. */
  lemma StringsEndInZero(t: string, rest: seq<char>)
    requires '\0' !in t
    ensures Terminated(t + ['\0'] + rest) && Str(t + ['\0'] + rest) == t
    ensures !Terminated(t) && NoNul(t)
  {
    hide Str;
    var s := t + ['\0'] + rest;
    assert s[|t|] == NUL && s[..|t|] == t;
    forall i | 0 <= i < |t|
      ensures t[i] != NUL
    {
      assert t[i] in t;
    }
    StrEnds(s, |t|);
  }

  lemma NoZero(t: string)
    requires NoNul(t)
    ensures '\0' !in t
  {
  }

  /** `sprintf(dst + at, ...)` where `text` is what the format produces. */
  method Put(dst: array<char>, at: nat, text: string)
    requires at + |text| < dst.Length
    modifies dst
    ensures dst[..at] == old(dst[..at])
    ensures dst[at..at + |text|] == text
    ensures dst[at + |text|] == '\0' == NUL
    ensures dst[at + |text| + 1..] == old(dst[at + |text| + 1..])
  {
    forall i | 0 <= i < |text| {
      dst[at + i] := text[i];
    }
    dst[at + |text|] := NUL;
  }
}
