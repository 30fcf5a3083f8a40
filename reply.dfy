/** The decision part of `confirm`: whether the operator's reply to a
    rename prompt means yes. The reply is passed in instead of read. */
module Reply {
  import opened Text

  /** The reply with surrounding whitespace removed and lower-cased. */
  function Normalize(reply: string): string {
    Lower(Strip(reply))
  }

  /** Empty input (the default), `y` and `yes` accept; anything else refuses. */
  predicate Confirm(reply: string) {
    var choice := Normalize(reply);
    choice == "" || choice == "y" || choice == "yes"
  }

  /** A reply is accepted exactly when, once its surrounding whitespace is
      trimmed, it is empty, `y` or `yes` in any mix of upper and lower case. */
  lemma ConfirmIff(reply: string)
    ensures Confirm(reply) <==>
      var t := Strip(reply);
      t == "" || t == "y" || t == "Y"
      || (|t| == 3 && (t[0] == 'y' || t[0] == 'Y') && (t[1] == 'e' || t[1] == 'E')
          && (t[2] == 's' || t[2] == 'S'))
  {
    var t := Strip(reply);
    var l := Lower(t);
    assert LowerChar('Y') == 'y' && LowerChar('E') == 'e' && LowerChar('S') == 's';
    if |t| == 1 {
      assert l == [LowerChar(t[0])];
      assert l == "y" <==> t[0] == 'y' || t[0] == 'Y';
    } else if |t| == 3 {
      assert l == [LowerChar(t[0]), LowerChar(t[1]), LowerChar(t[2])];
      assert l == "yes" <==> l[0] == 'y' && l[1] == 'e' && l[2] == 's';
    }
  }

  /** Whitespace around a reply does not change the decision. */
  lemma ConfirmIgnoresPadding(w1: string, reply: string, w2: string)
    requires AllSpace(w1) && AllSpace(w2)
    ensures Confirm(w1 + reply + w2) == Confirm(reply)
  {
    StripIgnoresPadding(w1, reply, w2);
  }

  /** A reply made only of whitespace takes the default, yes. */
  lemma ConfirmBlankIsYes(reply: string)
    requires AllSpace(reply)
    ensures Confirm(reply)
  {
    StripIgnoresPadding(reply, [], []);
    assert reply + [] + [] == reply;
    assert Strip([]) == [];
  }
}
