/** The exceptions the modelled code can throw, and the substring relation
    used to state what their messages mention. */
module Exceptions {

  datatype Exception =
    /** An `OpenSim::Exception` carrying its formatted message. */
    | OpenSimException(message: string)
    /** `std::out_of_range`, thrown by `std::string::substr` when the start
        position is past the end of the string. */
    | SubstrOutOfRange

  /** `sub` occurs in `s` starting at index `i`. */
  predicate OccursAt(s: string, sub: string, i: int) {
    0 <= i && i + |sub| <= |s| && s[i..i + |sub|] == sub
  }

  /** `sub` occurs contiguously somewhere in `s`. */
  predicate Contains(s: string, sub: string) {
    exists i :: 0 <= i <= |s| && OccursAt(s, sub, i)
  }

  /** A string occurs in any string built around it. */
  lemma ContainsInfix(pre: string, sub: string, post: string)
    ensures Contains(pre + sub + post, sub)
  {
    var s := pre + sub + post;
    assert s[|pre|..|pre| + |sub|] == sub;
    assert OccursAt(s, sub, |pre|);
  }
}
