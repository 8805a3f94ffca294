/** Comparisons of texts that several components use. */
module Texts {

  predicate EndsWith(text: string, end: string) {
    |end| <= |text| && text[|text| - |end|..] == end
  }

  lemma EndsWithIsSuffix(text: string, end: string)
    ensures EndsWith(text, end) <==> exists front :: text == front + end
  {
    if EndsWith(text, end) {
      assert text == text[..|text| - |end|] + end;
    }
    if front :| text == front + end {
      assert text[|front|..] == end;
    }
  }
}
