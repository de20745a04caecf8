/**
 * `runUserCode` (codeExecution.js): the declarations of a code block are recorded, the cleaned
 * code is run by JavaScript's `new Function` with every variable as a parameter, and the values
 * the code leaves in those parameters are copied back into the variables object.
 *
 * The evaluator itself is not modelled: it is the parameter `exec`, which receives the cleaned
 * code and the variables and answers with the values it returns, or `None` when it throws.
 */
module CodeRunner {

  import opened Wrappers
  import opened JsStrings
  import opened Variables
  import opened Declarations
  import IfRewrite

  /** JavaScript evaluation of a code block over the given variables. */
  type CodeOracle = (string, Registry) -> Option<Registry>

  /** The code handed to the evaluator: the declarations removed, and every `if` condition
      forced by `makeIfstatements` as it is written, as
      `extractVariablesAndCleanCode(userCode, variables, true)` does. */
  function CodeToRun(userCode: string): string
  {
    IfRewrite.MakeIfStatements(CleanCode(userCode))
  }

  /** `runUserCode(userCode, variables)`: the new variables object, or the failure when the
      evaluation throws. The code never removes a variable; it adds exactly the names it
      declares, and only the evaluator's answer changes the values of the others. */
  function RunUserCode(userCode: string, variables: Registry, exec: CodeOracle): (r: Result<Registry>)
    ensures r.Err? <==> exec(CodeToRun(userCode), DeclareAll(variables, Split(userCode, "\n"))).None?
    ensures r.Err? ==> r.error == CodeThrew
    ensures r.Ok? ==> r.value.Keys == variables.Keys + NamesDeclared(Split(userCode, "\n"), MatchDeclaration)
    ensures r.Ok? ==> r.value == CopyBack(DeclareAll(variables, Split(userCode, "\n")),
                                          exec(CodeToRun(userCode), DeclareAll(variables, Split(userCode, "\n"))).value)
  {
    var declared := DeclareAll(variables, Split(userCode, "\n"));
    RecordAllKeys(variables, Split(userCode, "\n"), MatchDeclaration);
    match exec(CodeToRun(userCode), declared)
    case None => Err(CodeThrew)
    case Some(returned) => Ok(CopyBack(declared, returned))
  }

  /** `Object.assign(variables, updatedVariables)`, where the evaluator returns one value per
      parameter: each variable takes the value returned for it. */
  function CopyBack(declared: Registry, returned: Registry): (r: Registry)
    ensures r.Keys == declared.Keys
    ensures forall k :: k in declared && k in returned ==> r[k] == returned[k]
    ensures forall k :: k in declared && k !in returned ==> r[k] == declared[k]
  {
    map k | k in declared :: if k in returned then returned[k] else declared[k]
  }

  /** When the evaluator changes nothing, the variables afterwards are exactly those the
      declarations of the block leave behind. */
  lemma IdleCodeDeclares(userCode: string, variables: Registry, exec: CodeOracle)
    requires exec(CodeToRun(userCode), DeclareAll(variables, Split(userCode, "\n"))) ==
      Some(DeclareAll(variables, Split(userCode, "\n")))
    ensures RunUserCode(userCode, variables, exec) == Ok(DeclareAll(variables, Split(userCode, "\n")))
  {
    var declared := DeclareAll(variables, Split(userCode, "\n"));
    assert CopyBack(declared, declared) == declared;
  }

  /** As written, a condition that calls a function reaches the evaluator with a stray `)`:
      the block `if (f(x)) y` is run as `if (true)) y`, which `new Function` rejects. */
  lemma NestedCallSentAsWritten()
    ensures CodeToRun("if (f(x)) y") == "if (true)" + ") y"
  {
    CallLineKept();
    IfRewrite.NestedCallLeavesParenthesis();
  }

  /** Helper: the one-line block declares nothing, so cleaning leaves it as it is. */
  lemma CallLineKept()
    ensures CleanCode("if (f(x)) y") == "if (f(x)) y"
  {
    var code := "if (f(x)) y";
    assert NoLineTerminator(code);
    assert TrimStart(code) == code;
    assert Trim(code) != "";
    OneLineKept(code);
  }

  /** Helper: a single line that opens no declaration and is not blank survives cleaning. */
  lemma OneLineKept(code: string)
    requires NoLineTerminator(code) && TrimStart(code) == code && Trim(code) != ""
    requires code[0] != 'v' && code[0] != 'l' && code[0] != 'c'
    ensures CleanCode(code) == code
  {
    assert !Contains(code, "\n") by {
      forall k: nat | k < |code| ensures !OccursAt(code, "\n", k) {
        assert code[k..k + 1] == [code[k]];
      }
    }
    SplitWithoutSeparator(code, "\n");
    NoKeywordAtStart(code);
    NoKeywordNoDeclaration(code);
    assert KeptLines([code]) == [code];
  }

  /** Helper: a line that starts with none of the letters `v`, `l` and `c` opens no
      declaration keyword. */
  lemma NoKeywordAtStart(s: string)
    requires s != [] && s[0] != 'v' && s[0] != 'l' && s[0] != 'c'
    ensures KeywordEnd(s, 0).None?
  {
  }
}
