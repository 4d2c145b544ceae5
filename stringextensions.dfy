/** The extension method `StringExtensions.TrimEnd(source, suffixToRemove)`
    (src/Utils/StringExtensions.cs): an exact suffix removed, or an exception;
    and .NET's `String.PadRight`, which the other classes use. */
module StringExtensions {
  import opened Outcomes

  const InvalidOperation: string := "Invalid Operation"

  /** `source.TrimEnd(suffixToRemove)`: the text before the suffix when
      `source` ends with it, otherwise `new Exception("Invalid Operation")`. */
  function TrimEnd(source: string, suffix: string): (r: Outcome<string>)
    ensures r.Throw? ==> r.error == GeneralException(InvalidOperation)
    ensures r.Return? ==> r.value + suffix == source && |r.value| == |source| - |suffix|
  {
    if |suffix| <= |source| && source[|source| - |suffix|..] == suffix then
      Return(source[..|source| - |suffix|])
    else
      Throw(GeneralException(InvalidOperation))
  }

  /** Trimming undoes appending the suffix. */
  lemma TrimEndUndoesAppend(s: string, suffix: string)
    ensures TrimEnd(s + suffix, suffix) == Return(s)
  {
    assert (s + suffix)[|s|..] == suffix;
    assert (s + suffix)[..|s|] == s;
  }

  /** Trimming fails exactly when no text followed by the suffix is `source`. */
  lemma TrimEndFailsWithoutSuffix(source: string, suffix: string)
    ensures TrimEnd(source, suffix).Throw? <==> forall s: string :: s + suffix != source
  {
    if TrimEnd(source, suffix).Return? {
      var s := TrimEnd(source, suffix).value;
      assert s + suffix == source;
    } else {
      forall s: string ensures s + suffix != source {
        if s + suffix == source {
          TrimEndUndoesAppend(s, suffix);
        }
      }
    }
  }

  /** An empty suffix leaves the text as it is. */
  lemma TrimEndEmptySuffix(source: string)
    ensures TrimEnd(source, "") == Return(source)
  {
    assert source[|source|..] == "";
    assert source[..|source|] == source;
  }

  /** `"test".TrimEnd("est")` is `"t"`, and `"test".TrimEnd("a")` throws. */
  lemma TrimEndTestCases()
    ensures TrimEnd("test", "est") == Return("t")
    ensures TrimEnd("test", "a") == Throw(GeneralException(InvalidOperation))
  {
    TrimEndUndoesAppend("t", "est");
    assert "t" + "est" == "test";
    assert "test"[3..] == "t";
  }

  /** `String.PadRight(width)`: the text, then spaces up to `width` characters;
      a text already that wide is returned as it is. */
  function PadRight(s: string, width: nat): (r: string)
    ensures |r| == if |s| >= width then |s| else width
    ensures r[..|s|] == s
    ensures forall i :: |s| <= i < |r| ==> r[i] == ' '
  {
    if |s| >= width then s else s + seq(width - |s|, _ => ' ')
  }
}
