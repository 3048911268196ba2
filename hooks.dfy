/** The fixed data of the extension: the abbreviation table and the snippet
    template of each hook (src/extension.ts). */
module Hooks {
  import opened Options
  import opened Text

  /** `HOOK_ABBREVIATIONS`, in declaration order: (abbreviation, hook name). */
  const HOOK_ABBREVIATIONS: seq<(string, string)> := [
    ("ust", "useState"),
    ("uef", "useEffect"),
    ("ucb", "useCallback"),
    ("urf", "useRef"),
    ("urd", "useReducer"),
    ("uct", "useContext"),
    ("umo", "useMemo"),
    ("uid", "useId"),
    ("uts", "useTransition")
  ]

  /** The hook names the table leads to. */
  predicate IsTableHook(hook: string) {
    exists k | 0 <= k < |HOOK_ABBREVIATIONS| :: HOOK_ABBREVIATIONS[k].1 == hook
  }

  /** A snippet that calls a hook: the text before the call, the arguments
      before the final tab stop `${0}`, and the text after it. */
  datatype Snippet = Snippet(before: string, args: string, after: string)

  /** The snippet text for `hook`, placeholders such as `${1:ref}` left
      unrendered. */
  function Render(hook: string, s: Snippet): string {
    s.before + hook + "(" + s.args + "${0}" + s.after
  }

  /** The snippet of each case of the `switch` in `insertHookSnippet`; `None`
      is the `default` branch, which inserts nothing. The arguments of the
      four multi-line templates are written as short literals joined with
      `+`; joined, they are the source's text, as `UseEffectTemplate` and
      its three siblings prove. They are cut short because the verifier
      joins only short literals, one piece at a time. */
  function SnippetFor(hook: string): Option<Snippet> {
    if hook == "useState" then
      Some(Snippet("const [${1:}, set${1/(.*)/${1:/capitalize}/}] = ", "", ")"))
    else if hook == "useEffect" then
      Some(Snippet("", "() => {\n\t${1:// " + "efeito}\n\treturn " + "() => {\n\t\t${2://" + " cleanup}\n\t}\n}, " + "[", "])"))
    else if hook == "useCallback" then
      Some(Snippet("", "(${2:params}) =>" + " {\n\t\t${3:}\n\t}, [", "])"))
    else if hook == "useRef" then
      Some(Snippet("const ${1:ref} = ", "", ")"))
    else if hook == "useReducer" then
      Some(Snippet("const [${1:state}, ${2:dispatch}] = ", "${3:reducer}, ${" + "4:initialState}", ")"))
    else if hook == "useContext" then
      Some(Snippet("const ${1:value} = ", "", ")"))
    else if hook == "useMemo" then
      Some(Snippet("", "() => {\n\t${1:}\n\t" + "return ${2:value" + "};\n}, [", "])"))
    else if hook == "useId" then
      Some(Snippet("const ${1:id} = ", "", ")"))
    else if hook == "useTransition" then
      Some(Snippet("const [${1:isPending}, ${2:startTransition}] = ", "", ")"))
    else
      None
  }

  /** The text `insertHookSnippet` inserts for `hook`, if any. */
  function Template(hook: string): (r: Option<string>)
    ensures r.Some? <==> SnippetFor(hook).Some?
  {
    match SnippetFor(hook)
    case Some(s) => Some(Render(hook, s))
    case None => None
  }

  /** No two table entries share an abbreviation. */
  lemma AbbreviationsUnique()
    ensures forall p, q | 0 <= p < q < |HOOK_ABBREVIATIONS| ::
      HOOK_ABBREVIATIONS[p].0 != HOOK_ABBREVIATIONS[q].0
  {
  }

  /** A hook has a template exactly when the table leads to it: every
      abbreviation can be expanded, and nothing outside the table can. */
  lemma TemplateExactlyForTableHooks(hook: string)
    ensures Template(hook).Some? <==> IsTableHook(hook)
  {
    if Template(hook).Some? {
      if hook == "useState" {
        assert HOOK_ABBREVIATIONS[0].1 == hook;
      } else if hook == "useEffect" {
        assert HOOK_ABBREVIATIONS[1].1 == hook;
      } else if hook == "useCallback" {
        assert HOOK_ABBREVIATIONS[2].1 == hook;
      } else if hook == "useRef" {
        assert HOOK_ABBREVIATIONS[3].1 == hook;
      } else if hook == "useReducer" {
        assert HOOK_ABBREVIATIONS[4].1 == hook;
      } else if hook == "useContext" {
        assert HOOK_ABBREVIATIONS[5].1 == hook;
      } else if hook == "useMemo" {
        assert HOOK_ABBREVIATIONS[6].1 == hook;
      } else if hook == "useId" {
        assert HOOK_ABBREVIATIONS[7].1 == hook;
      } else {
        assert HOOK_ABBREVIATIONS[8].1 == hook;
      }
    }
  }

  /** A rendered snippet calls its hook: `<hook>(` comes right after the
      text before the call. */
  lemma RenderCallsHook(hook: string, s: Snippet)
    ensures OccursAt(Render(hook, s), hook + "(", |s.before|)
  {
    assert Render(hook, s) == s.before + (hook + "(") + (s.args + "${0}" + s.after);
    MiddleOccurs(s.before, hook + "(", s.args + "${0}" + s.after);
  }

  /** A rendered snippet carries the final tab stop `${0}` right after the
      arguments of the call. */
  lemma RenderHasFinalStop(hook: string, s: Snippet)
    ensures OccursAt(Render(hook, s), "${0}", |s.before| + |hook| + 1 + |s.args|)
  {
    var front := s.before + hook + "(" + s.args;
    assert |front| == |s.before| + |hook| + 1 + |s.args|;
    assert Render(hook, s) == front + "${0}" + s.after;
    MiddleOccurs(front, "${0}", s.after);
  }

  /** `y` occurs in `x + y + z` right after `x`. */
  lemma MiddleOccurs(x: string, y: string, z: string)
    ensures OccursAt(x + y + z, y, |x|)
  {
    assert (x + y + z)[|x|..|x| + |y|] == y;
  }

  /** Every template of a table hook calls that hook and carries the final
      tab stop. */
  lemma TemplatesCallHookWithFinalStop(hook: string)
    requires IsTableHook(hook)
    ensures Template(hook).Some?
    ensures Contains(Template(hook).value, hook + "(")
    ensures Contains(Template(hook).value, "${0}")
  {
    TemplateExactlyForTableHooks(hook);
    var s := SnippetFor(hook).value;
    RenderCallsHook(hook, s);
    RenderHasFinalStop(hook, s);
  }

  /** The one-line templates are, letter for letter, the snippet texts of
      their `switch` cases. */
  lemma UseStateTemplate()
    ensures Template("useState") == Some("const [${1:}, set${1/(.*)/${1:/capitalize}/}] = useState(${0})")
  {
    var s := Snippet("const [${1:}, set${1/(.*)/${1:/capitalize}/}] = ", "", ")");
    assert SnippetFor("useState") == Some(s);
    assert Render("useState", s) == "const [${1:}, set${1/(.*)/${1:/capitalize}/}] = " + "useState" + "(" + "" + "${0}" + ")";
    assert "const [${1:}, set${1/(.*)/${1:/capitalize}/}] = " + "useState" + "(" + "" + "${0}" + ")" == "const [${1:}, set${1/(.*)/${1:/capitalize}/}] = useState(${0})";
    assert Template("useState") == Some(Render("useState", s));
  }

  lemma UseRefTemplate()
    ensures Template("useRef") == Some("const ${1:ref} = useRef(${0})")
  {
    var s := Snippet("const ${1:ref} = ", "", ")");
    assert SnippetFor("useRef") == Some(s);
    assert Render("useRef", s) == "const ${1:ref} = " + "useRef" + "(" + "" + "${0}" + ")";
    assert "const ${1:ref} = " + "useRef" + "(" + "" + "${0}" + ")" == "const ${1:ref} = useRef(${0})";
    assert Template("useRef") == Some(Render("useRef", s));
  }

  lemma UseContextTemplate()
    ensures Template("useContext") == Some("const ${1:value} = useContext(${0})")
  {
    var s := Snippet("const ${1:value} = ", "", ")");
    assert SnippetFor("useContext") == Some(s);
    assert Render("useContext", s) == "const ${1:value} = " + "useContext" + "(" + "" + "${0}" + ")";
    assert "const ${1:value} = " + "useContext" + "(" + "" + "${0}" + ")" == "const ${1:value} = useContext(${0})";
    assert Template("useContext") == Some(Render("useContext", s));
  }

  lemma UseIdTemplate()
    ensures Template("useId") == Some("const ${1:id} = useId(${0})")
  {
    var s := Snippet("const ${1:id} = ", "", ")");
    assert SnippetFor("useId") == Some(s);
    assert Render("useId", s) == "const ${1:id} = " + "useId" + "(" + "" + "${0}" + ")";
    assert "const ${1:id} = " + "useId" + "(" + "" + "${0}" + ")" == "const ${1:id} = useId(${0})";
    assert Template("useId") == Some(Render("useId", s));
  }

  lemma UseTransitionTemplate()
    ensures Template("useTransition") == Some("const [${1:isPending}, ${2:startTransition}] = useTransition(${0})")
  {
    var s := Snippet("const [${1:isPending}, ${2:startTransition}] = ", "", ")");
    assert SnippetFor("useTransition") == Some(s);
    assert Render("useTransition", s) == "const [${1:isPending}, ${2:startTransition}] = " + "useTransition" + "(" + "" + "${0}" + ")";
    assert "const [${1:isPending}, ${2:startTransition}] = " + "useTransition" + "(" + "" + "${0}" + ")" == "const [${1:isPending}, ${2:startTransition}] = useTransition(${0})";
    assert Template("useTransition") == Some(Render("useTransition", s));
  }

  /** The multi-line templates, letter for letter: the arguments are kept
      as short pieces, and the lemmas below fold them into the snippet text
      one piece at a time. */
  lemma AppendAssoc(x: string, y: string, z: string)
    ensures x + (y + z) == x + y + z
  {
  }

  lemma UseEffectTemplate()
    ensures Template("useEffect") == Some("useEffect(() => {\n\t${1:// efeito}\n\treturn () => {\n\t\t${2:// cleanup}\n\t}\n}, [${0}])")
  {
    var s := Snippet("", "() => {\n\t${1:// " + "efeito}\n\treturn " + "() => {\n\t\t${2://" + " cleanup}\n\t}\n}, " + "[", "])");
    assert SnippetFor("useEffect") == Some(s);
    assert Template("useEffect") == Some(Render("useEffect", s));
    AppendAssoc("" + "useEffect" + "(", "() => {\n\t${1:// " + "efeito}\n\treturn " + "() => {\n\t\t${2://" + " cleanup}\n\t}\n}, ", "[");
    AppendAssoc("" + "useEffect" + "(", "() => {\n\t${1:// " + "efeito}\n\treturn " + "() => {\n\t\t${2://", " cleanup}\n\t}\n}, ");
    AppendAssoc("" + "useEffect" + "(", "() => {\n\t${1:// " + "efeito}\n\treturn ", "() => {\n\t\t${2://");
    AppendAssoc("" + "useEffect" + "(", "() => {\n\t${1:// ", "efeito}\n\treturn ");
    UseEffectHead();
    UseEffectPiece1();
    UseEffectPiece2();
    UseEffectPiece3();
    UseEffectPiece4();
    UseEffectPiece5();
    UseEffectTail();
  }

  lemma UseEffectHead()
    ensures "" + "useEffect" + "(" == "useEffect("
  {
  }

  lemma UseEffectPiece1()
    ensures "useEffect(" + "() => {\n\t${1:// " == "useEffect(() => {\n\t${1:// "
  {
  }

  lemma UseEffectPiece2()
    ensures "useEffect(() => {\n\t${1:// " + "efeito}\n\treturn " == "useEffect(() => {\n\t${1:// efeito}\n\treturn "
  {
  }

  lemma UseEffectPiece3()
    ensures "useEffect(() => {\n\t${1:// efeito}\n\treturn " + "() => {\n\t\t${2://" == "useEffect(() => {\n\t${1:// efeito}\n\treturn () => {\n\t\t${2://"
  {
  }

  lemma UseEffectPiece4()
    ensures "useEffect(() => {\n\t${1:// efeito}\n\treturn () => {\n\t\t${2://" + " cleanup}\n\t}\n}, " == "useEffect(() => {\n\t${1:// efeito}\n\treturn () => {\n\t\t${2:// cleanup}\n\t}\n}, "
  {
  }

  lemma UseEffectPiece5()
    ensures "useEffect(() => {\n\t${1:// efeito}\n\treturn () => {\n\t\t${2:// cleanup}\n\t}\n}, " + "[" == "useEffect(() => {\n\t${1:// efeito}\n\treturn () => {\n\t\t${2:// cleanup}\n\t}\n}, ["
  {
  }

  lemma UseEffectTail()
    ensures "useEffect(() => {\n\t${1:// efeito}\n\treturn () => {\n\t\t${2:// cleanup}\n\t}\n}, [" + "${0}" + "])" == "useEffect(() => {\n\t${1:// efeito}\n\treturn () => {\n\t\t${2:// cleanup}\n\t}\n}, [${0}])"
  {
  }

  lemma UseCallbackTemplate()
    ensures Template("useCallback") == Some("useCallback((${2:params}) => {\n\t\t${3:}\n\t}, [${0}])")
  {
    var s := Snippet("", "(${2:params}) =>" + " {\n\t\t${3:}\n\t}, [", "])");
    assert SnippetFor("useCallback") == Some(s);
    assert Template("useCallback") == Some(Render("useCallback", s));
    AppendAssoc("" + "useCallback" + "(", "(${2:params}) =>", " {\n\t\t${3:}\n\t}, [");
    UseCallbackHead();
    UseCallbackPiece1();
    UseCallbackPiece2();
    UseCallbackTail();
  }

  lemma UseCallbackHead()
    ensures "" + "useCallback" + "(" == "useCallback("
  {
  }

  lemma UseCallbackPiece1()
    ensures "useCallback(" + "(${2:params}) =>" == "useCallback((${2:params}) =>"
  {
  }

  lemma UseCallbackPiece2()
    ensures "useCallback((${2:params}) =>" + " {\n\t\t${3:}\n\t}, [" == "useCallback((${2:params}) => {\n\t\t${3:}\n\t}, ["
  {
  }

  lemma UseCallbackTail()
    ensures "useCallback((${2:params}) => {\n\t\t${3:}\n\t}, [" + "${0}" + "])" == "useCallback((${2:params}) => {\n\t\t${3:}\n\t}, [${0}])"
  {
  }

  lemma UseReducerTemplate()
    ensures Template("useReducer") == Some("const [${1:state}, ${2:dispatch}] = useReducer(${3:reducer}, ${4:initialState}${0})")
  {
    var s := Snippet("const [${1:state}, ${2:dispatch}] = ", "${3:reducer}, ${" + "4:initialState}", ")");
    assert SnippetFor("useReducer") == Some(s);
    assert Template("useReducer") == Some(Render("useReducer", s));
    AppendAssoc("const [${1:state}, ${2:dispatch}] = " + "useReducer" + "(", "${3:reducer}, ${", "4:initialState}");
    UseReducerHead();
    UseReducerPiece1();
    UseReducerPiece2();
    UseReducerTail();
  }

  lemma UseReducerHead()
    ensures "const [${1:state}, ${2:dispatch}] = " + "useReducer" + "(" == "const [${1:state}, ${2:dispatch}] = useReducer("
  {
  }

  lemma UseReducerPiece1()
    ensures "const [${1:state}, ${2:dispatch}] = useReducer(" + "${3:reducer}, ${" == "const [${1:state}, ${2:dispatch}] = useReducer(${3:reducer}, ${"
  {
  }

  lemma UseReducerPiece2()
    ensures "const [${1:state}, ${2:dispatch}] = useReducer(${3:reducer}, ${" + "4:initialState}" == "const [${1:state}, ${2:dispatch}] = useReducer(${3:reducer}, ${4:initialState}"
  {
  }

  lemma UseReducerTail()
    ensures "const [${1:state}, ${2:dispatch}] = useReducer(${3:reducer}, ${4:initialState}" + "${0}" + ")" == "const [${1:state}, ${2:dispatch}] = useReducer(${3:reducer}, ${4:initialState}${0})"
  {
  }

  lemma UseMemoTemplate()
    ensures Template("useMemo") == Some("useMemo(() => {\n\t${1:}\n\treturn ${2:value};\n}, [${0}])")
  {
    var s := Snippet("", "() => {\n\t${1:}\n\t" + "return ${2:value" + "};\n}, [", "])");
    assert SnippetFor("useMemo") == Some(s);
    assert Template("useMemo") == Some(Render("useMemo", s));
    AppendAssoc("" + "useMemo" + "(", "() => {\n\t${1:}\n\t" + "return ${2:value", "};\n}, [");
    AppendAssoc("" + "useMemo" + "(", "() => {\n\t${1:}\n\t", "return ${2:value");
    UseMemoHead();
    UseMemoPiece1();
    UseMemoPiece2();
    UseMemoPiece3();
    UseMemoTail();
  }

  lemma UseMemoHead()
    ensures "" + "useMemo" + "(" == "useMemo("
  {
  }

  lemma UseMemoPiece1()
    ensures "useMemo(" + "() => {\n\t${1:}\n\t" == "useMemo(() => {\n\t${1:}\n\t"
  {
  }

  lemma UseMemoPiece2()
    ensures "useMemo(() => {\n\t${1:}\n\t" + "return ${2:value" == "useMemo(() => {\n\t${1:}\n\treturn ${2:value"
  {
  }

  lemma UseMemoPiece3()
    ensures "useMemo(() => {\n\t${1:}\n\treturn ${2:value" + "};\n}, [" == "useMemo(() => {\n\t${1:}\n\treturn ${2:value};\n}, ["
  {
  }

  lemma UseMemoTail()
    ensures "useMemo(() => {\n\t${1:}\n\treturn ${2:value};\n}, [" + "${0}" + "])" == "useMemo(() => {\n\t${1:}\n\treturn ${2:value};\n}, [${0}])"
  {
  }
}
