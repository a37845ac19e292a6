/**
 * Choice of the spreadsheet that receives the sent-command history:
 * `<base>.xlsx`, or else `<base> (1).xlsx`, `<base> (2).xlsx`, ... until a
 * name is free.  The set of names already on disk stands for
 * `os.path.exists`.
 */
module ExportNaming {
  import opened Numerals

  const BasePrefix: string := "VERTECS_TRACK_"

  /** The k-th name tried: k = 0 is "<base>.xlsx", k >= 1 is "<base> (k).xlsx". */
  function ExportName(baseName: string, k: nat): (name: string)
    ensures |name| >= |baseName| + 5
    ensures k == 0 <==> |name| == |baseName| + 5
  {
    if k == 0 then baseName + ".xlsx" else baseName + " (" + DecimalString(k) + ").xlsx"
  }

  /** Every name is the base followed by ".xlsx"; for k >= 1 the attempt
      number can be read back from the decimal digits between " (" and
      ").xlsx". */
  lemma ExportNameReadBack(baseName: string, k: nat)
    ensures var name, b := ExportName(baseName, k), |baseName|;
      && name[..b] == baseName && name[|name| - 5..] == ".xlsx"
      && (k >= 1 ==>
            && |name| >= b + 9
            && name[b .. b + 2] == " (" && name[|name| - 6 .. |name| - 5] == ")"
            && AllDigits(name[b + 2 .. |name| - 6])
            && DecimalValue(name[b + 2 .. |name| - 6]) == k)
  {
    if k >= 1 {
      var name := ExportName(baseName, k);
      assert name[|baseName| + 2 .. |name| - 6] == DecimalString(k);
      DecimalRoundTrip(k);
    }
  }

  /** Different attempts never produce the same name. */
  lemma ExportNameInjective(baseName: string, j: nat, k: nat)
    requires ExportName(baseName, j) == ExportName(baseName, k)
    ensures j == k
  {
    if j != 0 && k != 0 {
      ExportNameReadBack(baseName, j);
      ExportNameReadBack(baseName, k);
    }
  }

  /** If the first n attempts all exist, there are at least n existing names:
      the search cannot go on for longer than the existing set is large. */
  lemma {:induction false} AttemptsBounded(baseName: string, existing: set<string>, n: nat)
    requires forall k :: 0 <= k < n ==> ExportName(baseName, k) in existing
    ensures n <= |existing|
  {
    if n > 0 {
      var last := ExportName(baseName, n - 1);
      var rest := existing - {last};
      forall k | 0 <= k < n - 1
        ensures ExportName(baseName, k) in rest
      {
        if ExportName(baseName, k) == last {
          ExportNameInjective(baseName, k, n - 1);
        }
      }
      AttemptsBounded(baseName, rest, n - 1);
      assert existing == rest + {last};
    }
  }

  /** `initialize_excel_file`: the first free name in the order above. */
  method InitializeExcelFile(currentTime: string, existing: set<string>) returns (fileName: string)
    ensures fileName !in existing
    ensures exists k: nat ::
      && fileName == ExportName(BasePrefix + currentTime, k)
      && forall j :: 0 <= j < k ==> ExportName(BasePrefix + currentTime, j) in existing
  {
    var baseName := BasePrefix + currentTime;
    var counter := 1;
    fileName := baseName + ".xlsx";
    while fileName in existing
      invariant 1 <= counter <= |existing| + 1
      invariant fileName == ExportName(baseName, counter - 1)
      invariant forall j :: 0 <= j < counter - 1 ==> ExportName(baseName, j) in existing
      decreases |existing| + 1 - counter
    {
      AttemptsBounded(baseName, existing, counter);
      fileName := baseName + " (" + DecimalString(counter) + ").xlsx";
      counter := counter + 1;
    }
    assert fileName == ExportName(baseName, counter - 1);
  }
}
