/**
 The `notEmpty` column validator of the ORM, shared by the order and item
 models. It refuses a string made only of whitespace, not just the empty
 string: a value passes when it has at least one character outside the
 JavaScript regular-expression class `\s`.
 */
module Validators {

  /** The characters of the class `\s`: ECMAScript white space and line terminators. */
  predicate IsJsSpace(c: char)
  {
    var n := c as int;
    || n == 0x09 || n == 0x0A || n == 0x0B || n == 0x0C || n == 0x0D || n == 0x20
    || n == 0xA0 || n == 0x1680 || (0x2000 <= n <= 0x200A)
    || n == 0x2028 || n == 0x2029 || n == 0x202F || n == 0x205F || n == 0x3000 || n == 0xFEFF
  }

  /** `s` passes `notEmpty`: some character of it is not white space. */
  predicate NotBlank(s: string)
  {
    exists i :: 0 <= i < |s| && !IsJsSpace(s[i])
  }

  /** Blank strings are exactly those made only of white space, the empty one included. */
  lemma BlankIffAllSpace(s: string)
    ensures !NotBlank(s) <==> forall i :: 0 <= i < |s| ==> IsJsSpace(s[i])
    ensures NotBlank(s) ==> |s| > 0
  {
  }

  /**
   Surrounding white space does not change whether a value passes, and a
   value made of spaces, tabs and newlines fails.
   */
  lemma {:induction false} NotBlankPadding(pre: string, s: string, post: string)
    requires forall i :: 0 <= i < |pre| ==> IsJsSpace(pre[i])
    requires forall i :: 0 <= i < |post| ==> IsJsSpace(post[i])
    ensures NotBlank(pre + s + post) <==> NotBlank(s)
  {
    var t := pre + s + post;
    assert forall i :: 0 <= i < |pre| ==> t[i] == pre[i];
    assert forall i :: |pre| + |s| <= i < |t| ==> t[i] == post[i - |pre| - |s|];
    if NotBlank(t) {
      var i :| 0 <= i < |t| && !IsJsSpace(t[i]);
      assert |pre| <= i < |pre| + |s|;
      assert t[i] == s[i - |pre|];
    }
    if NotBlank(s) {
      var i :| 0 <= i < |s| && !IsJsSpace(s[i]);
      assert t[|pre| + i] == s[i];
    }
  }

  /** Concrete values: the empty string and white space fail, text with padding passes. */
  lemma NotBlankExamples()
    ensures !NotBlank("")
    ensures !NotBlank("  \t\r\n")
    ensures NotBlank(" Cambio de aceite ")
  {
    assert !IsJsSpace('C');
    assert " Cambio de aceite "[1] == 'C';
  }
}
