/** `get_account_id_from_context`: the fifth colon-separated field of the invoked function's ARN. */
module Account {
  import opened Wrappers

  /** The invocation context; `functionArn` is None when it has no `invoked_function_arn` attribute. */
  datatype Context = Context(functionArn: Option<string>)

  /** Python's `s.split(sep)` with an explicit one-character separator. */
  function Split(s: string, sep: char): (fields: seq<string>)
    ensures |fields| >= 1
  {
    if s == [] then [""]
    else
      var rest := Split(s[1..], sep);
      if s[0] == sep then [""] + rest else [[s[0]] + rest[0]] + rest[1..]
  }

  /** `sep.join(fields)`. */
  function Join(fields: seq<string>, sep: char): string
    requires |fields| >= 1
  {
    if |fields| == 1 then fields[0] else fields[0] + [sep] + Join(fields[1..], sep)
  }

  function Occurrences(s: string, c: char): nat {
    if s == [] then 0 else (if s[0] == c then 1 else 0) + Occurrences(s[1..], c)
  }

  predicate Free(fields: seq<string>, sep: char) {
    forall i :: 0 <= i < |fields| ==> sep !in fields[i]
  }

  /** Splitting yields separator-free fields that join back to the text, one more than there are separators. */
  lemma {:induction false} SplitJoin(s: string, sep: char)
    ensures Join(Split(s, sep), sep) == s
    ensures Free(Split(s, sep), sep)
    ensures |Split(s, sep)| == Occurrences(s, sep) + 1
  {
    if s != [] {
      var rest := Split(s[1..], sep);
      SplitJoin(s[1..], sep);
      if s[0] == sep {
        assert Split(s, sep)[1..] == rest;
      } else {
        var fields := Split(s, sep);
        assert fields[1..] == rest[1..];
        if |rest| > 1 {
          assert Join(rest, sep) == rest[0] + [sep] + Join(rest[1..], sep);
        }
        assert s == [s[0]] + s[1..];
        forall i | 0 <= i < |fields| ensures sep !in fields[i] {
          if i > 0 {
            assert fields[i] == rest[i];
          }
        }
      }
    }
  }

  lemma {:induction false} SplitFree(a: string, sep: char)
    requires sep !in a
    ensures Split(a, sep) == [a]
  {
    if a != [] {
      SplitFree(a[1..], sep);
      assert a[0] != sep;
      assert [a[0]] + a[1..] == a;
    }
  }

  lemma {:induction false} SplitAfterField(a: string, b: string, sep: char)
    requires sep !in a
    ensures Split(a + [sep] + b, sep) == [a] + Split(b, sep)
  {
    var s := a + [sep] + b;
    if a == [] {
      assert s[1..] == b;
    } else {
      assert s[1..] == a[1..] + [sep] + b;
      SplitAfterField(a[1..], b, sep);
      assert [a[0]] + a[1..] == a;
    }
  }

  /** Separator-free fields are recovered by splitting their join: the split is the unique such decomposition. */
  lemma {:induction false} SplitUnique(fields: seq<string>, sep: char)
    requires |fields| >= 1 && Free(fields, sep)
    ensures Split(Join(fields, sep), sep) == fields
  {
    if |fields| == 1 {
      SplitFree(fields[0], sep);
    } else {
      SplitUnique(fields[1..], sep);
      SplitAfterField(fields[0], Join(fields[1..], sep), sep);
      assert fields == [fields[0]] + fields[1..];
    }
  }

  /** The account id: field index 4 of the colon-split ARN; None when the attribute is missing or there are fewer than five fields. */
  function AccountId(context: Context): Option<string> {
    match context.functionArn
    case None => None
    case Some(arn) =>
      var fields := Split(arn, ':');
      if |fields| > 4 then Some(fields[4]) else None
  }

  /** An id is found exactly when the ARN has at least four colons; it is then the fifth of the
      colon-free fields whose colon-join is the ARN, and those fields are unique. */
  lemma AccountIdFacts(context: Context)
    ensures AccountId(context).Some? <==>
      context.functionArn.Some? && Occurrences(context.functionArn.value, ':') >= 4
    ensures AccountId(context).Some? ==>
      ':' !in AccountId(context).value &&
      exists fields :: |fields| >= 5 && Free(fields, ':') &&
        Join(fields, ':') == context.functionArn.value && fields[4] == AccountId(context).value
    ensures forall fields :: |fields| >= 1 && Free(fields, ':') && context.functionArn == Some(Join(fields, ':')) ==>
      AccountId(context) == if |fields| > 4 then Some(fields[4]) else None
  {
    if context.functionArn.Some? {
      var arn := context.functionArn.value;
      SplitJoin(arn, ':');
      forall fields | |fields| >= 1 && Free(fields, ':') && context.functionArn == Some(Join(fields, ':'))
        ensures AccountId(context) == if |fields| > 4 then Some(fields[4]) else None
      {
        SplitUnique(fields, ':');
      }
    }
  }
}
