/** The name sanitiser: each character that the destination filesystem
    refuses (`"`, `'` and `:`) is replaced by `-` in one path segment. */
module Sanitizer {
  import opened Text
  import opened Paths

  const InvalidChars: seq<char> := ['"', '\'', ':']
  const Replacement: char := '-'

  /** `name` after replacing each of `chars` in turn by `Replacement`, in
      the order the loop of `sanitize_name` visits them. */
  function ReplaceEach(name: string, chars: seq<char>): string
    decreases |chars|
  {
    if chars == [] then name
    else ReplaceChar(ReplaceEach(name, chars[..|chars| - 1]), chars[|chars| - 1], [Replacement])
  }

  /** The sanitising rule for one character. */
  function SanitizeChar(ch: char): char {
    if ch in InvalidChars then Replacement else ch
  }

  /** The sanitised form of one path segment: the rule applied to each of
      its characters. */
  function Sanitize(name: string): string {
    seq(|name|, i requires 0 <= i < |name| => SanitizeChar(name[i]))
  }

  /** `sanitize_name`: replaces every invalid character, one character
      class at a time. */
  method SanitizeName(name: string) returns (newName: string)
    ensures |newName| == |name|
    ensures forall i :: 0 <= i < |name| ==>
      newName[i] == if name[i] in InvalidChars then Replacement else name[i]
    ensures newName == Sanitize(name)
  {
    newName := name;
    for k := 0 to |InvalidChars|
      invariant newName == ReplaceEach(name, InvalidChars[..k])
    {
      assert InvalidChars[..k + 1][..k] == InvalidChars[..k];
      newName := ReplaceChar(newName, InvalidChars[k], [Replacement]);
    }
    assert InvalidChars[..|InvalidChars|] == InvalidChars;
    ReplaceEachSanitizes(name);
  }

  /** After replacing each of `chars`, a character that is one of them has
      become `Replacement` and any other is unchanged. */
  lemma {:induction false} ReplaceEachPointwise(name: string, chars: seq<char>)
    ensures |ReplaceEach(name, chars)| == |name|
    ensures forall i :: 0 <= i < |name| ==>
      ReplaceEach(name, chars)[i] == if name[i] in chars then Replacement else name[i]
    decreases |chars|
  {
    if chars != [] {
      var init := chars[..|chars| - 1];
      var c := chars[|chars| - 1];
      ReplaceEachPointwise(name, init);
      ReplaceCharPointwise(ReplaceEach(name, init), c, Replacement);
      forall i | 0 <= i < |name|
        ensures ReplaceEach(name, chars)[i] == if name[i] in chars then Replacement else name[i]
      {
        assert name[i] in chars <==> name[i] in init || name[i] == c by {
          assert chars == init + [c];
        }
      }
    }
  }

  /** The loop of `sanitize_name`, replacing the invalid characters one
      after the other, applies the sanitising rule to every character. */
  lemma ReplaceEachSanitizes(name: string)
    ensures ReplaceEach(name, InvalidChars) == Sanitize(name)
  {
    ReplaceEachPointwise(name, InvalidChars);
  }

  /** No invalid character survives sanitising. */
  lemma SanitizeRemovesInvalid(name: string)
    ensures forall c :: c in InvalidChars ==> c !in Sanitize(name)
  {
    var r := Sanitize(name);
    forall c | c in InvalidChars ensures c !in r {
      forall i | 0 <= i < |r| ensures r[i] != c {
        assert r[i] == if name[i] in InvalidChars then Replacement else name[i];
      }
    }
  }

  /** A name is left unchanged exactly when it holds no invalid character. */
  lemma SanitizeFixedIff(name: string)
    ensures Sanitize(name) == name <==> forall i :: 0 <= i < |name| ==> name[i] !in InvalidChars
  {
    if Sanitize(name) == name {
      forall i | 0 <= i < |name| ensures name[i] !in InvalidChars {
        assert Sanitize(name)[i] == name[i];
      }
    }
  }

  /** Sanitising twice is sanitising once. */
  lemma SanitizeIdempotent(name: string)
    ensures Sanitize(Sanitize(name)) == Sanitize(name)
  {
    var r := Sanitize(name);
    SanitizeRemovesInvalid(name);
    forall i | 0 <= i < |r| ensures r[i] !in InvalidChars {
      assert r[i] in r;
    }
    SanitizeFixedIff(r);
  }

  /** A sanitised directory-entry name is still one: not empty, and no
      separator is introduced. */
  lemma SanitizeKeepsSegment(name: string)
    requires ValidSegment(name)
    ensures ValidSegment(Sanitize(name))
  {
    var r := Sanitize(name);
    forall i | 0 <= i < |r| ensures r[i] != Sep {
      assert name[i] in name;
    }
  }
}
