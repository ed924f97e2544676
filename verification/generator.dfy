/** The pure helpers of MultiIndexContainerGenerator, the annotation
    processor that writes an Indexable enum, one constant per annotated
    getter, for every record class whose getters carry @MultiIndexed. */
module Generator {
  import opened Results

  /** The getter prefixes a constant name loses, tried in this order. */
  const Prefixes: seq<string> := ["get", "is"]

  /** The class suffix used when no acceptable one is configured. */
  const DefaultSuffix: string := "_Indexes"

  /** The fully qualified name of the marker interface a record class must
      implement. */
  const MarkerName: string := "cz.kamosh.multiindex.interf.IMultiIndexed"

  // ------------------------------------------------------------------
  // Constant names
  // ------------------------------------------------------------------

  /** Upper-casing of one character, restricted to ASCII letters. */
  function UpperCase(c: char): char {
    if 'a' <= c <= 'z' then (c as int - 32) as char else c
  }

  /** The method name with the first matching getter prefix removed when
      trimming is on; at most one prefix is ever removed. */
  function TrimPrefix(methodName: string, trimGet: bool): (m: string)
    ensures !trimGet ==> m == methodName
    ensures trimGet && Prefixes[0] <= methodName ==> methodName == Prefixes[0] + m
    ensures trimGet && !(Prefixes[0] <= methodName) && Prefixes[1] <= methodName ==> methodName == Prefixes[1] + m
    ensures trimGet && !(Prefixes[0] <= methodName) && !(Prefixes[1] <= methodName) ==> m == methodName
  {
    if trimGet && Prefixes[0] <= methodName then methodName[|Prefixes[0]|..]
    else if trimGet && Prefixes[1] <= methodName then methodName[|Prefixes[1]|..]
    else methodName
  }

  /** formIndexConstantName: the (possibly trimmed) method name with its
      first character upper-cased. Taking the first character of an empty
      name throws StringIndexOutOfBoundsException, which is `None` here. */
  function FormIndexConstantName(methodName: string, trimGet: bool): (r: Option<string>)
    ensures r.None? <==> TrimPrefix(methodName, trimGet) == []
    ensures r.Some? ==> |r.value| == |TrimPrefix(methodName, trimGet)| <= |methodName|
    ensures r.Some? ==> r.value[0] == UpperCase(TrimPrefix(methodName, trimGet)[0])
                        && r.value[1..] == TrimPrefix(methodName, trimGet)[1..]
    ensures r.Some? ==> !('a' <= r.value[0] <= 'z')
  {
    var m := TrimPrefix(methodName, trimGet);
    if |m| == 0 then None else Some([UpperCase(m[0])] + m[1..])
  }

  /** A formed constant name is a fixed point of the formation without
      trimming: capitalising it again changes nothing. */
  lemma ConstantNameIsStable(methodName: string, trimGet: bool)
    requires FormIndexConstantName(methodName, trimGet).Some?
    ensures FormIndexConstantName(FormIndexConstantName(methodName, trimGet).value, false)
         == FormIndexConstantName(methodName, trimGet)
  {
    var c := FormIndexConstantName(methodName, trimGet).value;
    assert UpperCase(c[0]) == c[0];
    assert [c[0]] + c[1..] == c;
  }

  /** With trimming on, a getter `get<n>` or `is<n>` yields the constant the
      bare `<n>` yields without trimming: only the prefix is dropped, and
      only once (`getIsX` becomes `IsX`). Hence `getX` and `isX` on one
      class form the same constant. */
  lemma PrefixIsStrippedOnce(p: string, n: string)
    requires p in Prefixes
    ensures FormIndexConstantName(p + n, true) == FormIndexConstantName(n, false)
    ensures FormIndexConstantName(Prefixes[0] + n, true) == FormIndexConstantName(Prefixes[1] + n, true)
  {
    assert (p + n)[|p|..] == n;
    assert (Prefixes[0] + n)[|Prefixes[0]|..] == n;
    assert (Prefixes[1] + n)[|Prefixes[1]|..] == n;
    assert !(Prefixes[0] <= Prefixes[1] + n) by {
      assert (Prefixes[1] + n)[0] == 'i';
    }
  }

  /** A method named exactly like a prefix cannot be turned into a
      constant when trimming is on, and neither can an empty name. */
  lemma BarePrefixHasNoConstant(p: string, trimGet: bool)
    requires p in Prefixes
    ensures FormIndexConstantName(p, true).None?
    ensures FormIndexConstantName("", trimGet).None?
  {
    assert p + "" == p;
    PrefixIsStrippedOnce(p, "");
  }

  // ------------------------------------------------------------------
  // Package and type names
  // ------------------------------------------------------------------

  /** String.lastIndexOf(c), with `None` for -1. */
  function LastIndexOf(s: string, c: char): (r: Option<nat>)
    ensures r.None? <==> c !in s
    ensures r.Some? ==> r.value < |s| && s[r.value] == c && c !in s[r.value + 1..]
  {
    if |s| == 0 then None
    else if s[|s| - 1] == c then Some(|s| - 1)
    else
      var r := LastIndexOf(s[..|s| - 1], c);
      assert s == s[..|s| - 1] + [s[|s| - 1]];
      if r.Some? then
        assert s[r.value + 1..] == s[..|s| - 1][r.value + 1..] + [s[|s| - 1]];
        r
      else r
  }

  /** getPackageName: the qualified class name up to its last '.'. A name
      without a '.' makes substring throw, which is `None` here. */
  function GetPackageName(className: string): (r: Option<string>)
    ensures r.None? <==> '.' !in className
    ensures r.Some? ==> |r.value| < |className|
                        && className == r.value + "." + className[|r.value| + 1..]
                        && '.' !in className[|r.value| + 1..]
  {
    match LastIndexOf(className, '.')
    case None => None
    case Some(i) =>
      assert className == className[..i] + "." + className[i + 1..];
      Some(className[..i])
  }

  /** The unqualified name of a class: everything after its last '.'. */
  function SimpleName(className: string): (r: string)
    ensures '.' !in r
    ensures r <= className || (GetPackageName(className).Some? && className == GetPackageName(className).value + "." + r)
  {
    match LastIndexOf(className, '.')
    case None => className
    case Some(i) => className[i + 1..]
  }

  /** Splitting a qualified name at its last '.' undoes joining a package
      and a simple name that has no '.'. */
  lemma PackageOfQualifiedName(pkg: string, simple: string)
    requires '.' !in simple
    ensures GetPackageName(pkg + "." + simple) == Some(pkg)
    ensures SimpleName(pkg + "." + simple) == simple
  {
    var q := pkg + "." + simple;
    assert q[|pkg|] == '.';
    var i := LastIndexOf(q, '.').value;
    assert q[..i] == pkg;
    assert q[i + 1..] == simple;
  }

  /** The name of the generated enum: the record class's qualified name
      followed by the suffix. */
  function GeneratedClassName(className: string, suffix: string): (r: string)
    ensures className <= r && r[|className|..] == suffix
  {
    className + suffix
  }

  /** The type name the generated header declares: the record class's
      simple name followed by the suffix. */
  function EnumTypeName(className: string, suffix: string): (r: string)
    ensures |r| == |SimpleName(className)| + |suffix|
    ensures r[|SimpleName(className)|..] == suffix
  {
    SimpleName(className) + suffix
  }

  /** Distinct record classes get distinct generated classes. */
  lemma GeneratedNamesDistinct(a: string, b: string, suffix: string)
    requires a != b
    ensures GeneratedClassName(a, suffix) != GeneratedClassName(b, suffix)
  {
  }

  /** For a suffix without '.', the generated file lands in the record
      class's package, and the type the header declares is the file's own
      simple name. */
  lemma GeneratedClassFitsItsFile(pkg: string, simple: string, suffix: string)
    requires '.' !in simple && '.' !in suffix
    ensures GetPackageName(GeneratedClassName(pkg + "." + simple, suffix)) == GetPackageName(pkg + "." + simple)
    ensures SimpleName(GeneratedClassName(pkg + "." + simple, suffix)) == EnumTypeName(pkg + "." + simple, suffix)
  {
    PackageOfQualifiedName(pkg, simple);
    assert '.' !in simple + suffix;
    assert GeneratedClassName(pkg + "." + simple, suffix) == pkg + "." + (simple + suffix);
    PackageOfQualifiedName(pkg, simple + suffix);
  }

  // ------------------------------------------------------------------
  // Processor options
  // ------------------------------------------------------------------

  /** A parsed option and whether a warning was printed about it. */
  datatype Setting<T> = Setting(value: T, warned: bool)

  /** The first character that is not a Java identifier part: where the
      validation loop of the suffix stops. `isPart` stands for
      Character.isJavaIdentifierPart. */
  function FirstInvalid(s: string, isPart: char -> bool): (r: Option<nat>)
    ensures r.Some? ==> r.value < |s| && !isPart(s[r.value]) && forall j | 0 <= j < r.value :: isPart(s[j])
    ensures r.None? ==> forall j | 0 <= j < |s| :: isPart(s[j])
  {
    if |s| == 0 then None
    else if !isPart(s[0]) then Some(0)
    else
      match FirstInvalid(s[1..], isPart)
      case None => None
      case Some(i) => Some(i + 1)
  }

  /** The classSuffix option: absent keeps the default silently, empty
      keeps it with a warning, a value with a character that is not an
      identifier part keeps it with a warning, anything else is used. */
  function ParseSuffix(option: Option<string>, isPart: char -> bool): (r: Setting<string>)
    ensures option.None? ==> r == Setting(DefaultSuffix, false)
    ensures option == Some([]) ==> r == Setting(DefaultSuffix, true)
    ensures option.Some? && option.value != [] ==>
              (r == Setting(option.value, false) <==> forall j | 0 <= j < |option.value| :: isPart(option.value[j]))
    ensures r.warned ==> r.value == DefaultSuffix
  {
    match option
    case None => Setting(DefaultSuffix, false)
    case Some(s) =>
      if s == [] then Setting(DefaultSuffix, true)
      else if FirstInvalid(s, isPart).Some? then Setting(DefaultSuffix, true)
      else Setting(s, false)
  }

  /** Whatever the option, the suffix in use is non-empty, and it has no
      '.' when neither the default nor the identifier-part test admits one;
      a generated class therefore always differs from its record class. */
  lemma SuffixIsUsable(option: Option<string>, isPart: char -> bool)
    requires !isPart('.')
    ensures ParseSuffix(option, isPart).value != []
    ensures '.' !in ParseSuffix(option, isPart).value
  {
    var r := ParseSuffix(option, isPart);
    if r.value == DefaultSuffix {
      assert forall j | 0 <= j < |DefaultSuffix| :: DefaultSuffix[j] != '.';
    } else {
      assert option.Some? && forall j | 0 <= j < |option.value| :: isPart(option.value[j]);
      forall j | 0 <= j < |r.value| ensures r.value[j] != '.' {
        assert isPart(r.value[j]);
      }
    }
  }

  /** Lower-casing of one character, restricted to ASCII letters. */
  function LowerCase(c: char): char {
    if 'A' <= c <= 'Z' then (c as int + 32) as char else c
  }

  /** String.equalsIgnoreCase over ASCII letters. */
  predicate EqualsIgnoreCase(a: string, b: string) {
    |a| == |b| && forall i | 0 <= i < |a| :: LowerCase(a[i]) == LowerCase(b[i])
  }

  /** The text of a boolean option value. */
  function BoolText(b: bool): string {
    if b then "true" else "false"
  }

  /** The trimGet option: "false" in any letter case turns trimming off,
      "true" in any case or an absent option leaves it on, and any other
      value leaves it on with a warning. */
  function ParseTrimGet(option: Option<string>): (r: Setting<bool>)
    ensures !r.value <==> option.Some? && EqualsIgnoreCase(option.value, BoolText(false))
    ensures r.warned <==> option.Some? && !EqualsIgnoreCase(option.value, BoolText(false))
                                      && !EqualsIgnoreCase(option.value, BoolText(true))
  {
    match option
    case None => Setting(true, false)
    case Some(s) =>
      if EqualsIgnoreCase(s, BoolText(false)) then Setting(false, false)
      else if EqualsIgnoreCase(s, BoolText(true)) then Setting(true, false)
      else Setting(true, true)
  }

  /** Any spelling of a boolean, whatever its letter case, parses back to
      that boolean without a warning. */
  lemma TrimGetRoundTrip(s: string, b: bool)
    requires EqualsIgnoreCase(s, BoolText(b))
    ensures ParseTrimGet(Some(s)) == Setting(b, false)
  {
    assert |BoolText(true)| != |BoolText(false)|;
  }

  // ------------------------------------------------------------------
  // Validation of annotated elements
  // ------------------------------------------------------------------

  /** The kinds of element an annotation can sit on, as far as the
      processor distinguishes them. */
  datatype Kind = MethodKind | ClassKind | OtherKind

  /** An element annotated @MultiIndexed: `id` identifies it, `enclosing`
      is the element it is declared in. */
  datatype Annotated<M, C> = Annotated(
    id: M,
    kind: Kind,
    returnsVoid: bool,
    isPublic: bool,
    isStatic: bool,
    parameters: nat,
    simpleName: string,
    enclosing: C)

  /** The diagnostics the processor prints. */
  datatype Message =
    | NotAMethod          // error: the annotation is not on a method
    | NotAPublicGetter    // error: the method returns void or is not public
    | HasParameters       // error: the method expects parameters
    | NotBeanGetter       // warning: the name starts with neither "is" nor "get"
    | StaticGetter        // warning: the method is static
    | NotMultiIndexed     // error: the enclosing class fails the interface check

  predicate IsError(m: Message) {
    m in {NotAMethod, NotAPublicGetter, HasParameters, NotMultiIndexed}
  }

  /** checkIndexedElement: whether the element is kept as a getter, and
      the diagnostics printed about it, in order. */
  function CheckIndexedElement<M, C>(e: Annotated<M, C>): (r: (bool, seq<Message>))
    ensures r.0 <==> e.kind == MethodKind && !e.returnsVoid && e.isPublic
    ensures !r.0 ==> |r.1| == 1 && IsError(r.1[0])
    ensures r.0 ==> (HasParameters in r.1 <==> e.parameters > 0)
    ensures r.0 ==> (NotBeanGetter in r.1 <==> !(Prefixes[1] <= e.simpleName) && !(Prefixes[0] <= e.simpleName))
    ensures r.0 ==> (StaticGetter in r.1 <==> e.isStatic)
    ensures r.0 ==> ((forall i | 0 <= i < |r.1| :: !IsError(r.1[i])) <==> e.parameters == 0)
  {
    if e.kind != MethodKind then (false, [NotAMethod])
    else if e.returnsVoid || !e.isPublic then (false, [NotAPublicGetter])
    else
      var params := if e.parameters > 0 then [HasParameters] else [];
      var prefix := if !(Prefixes[1] <= e.simpleName) && !(Prefixes[0] <= e.simpleName) then [NotBeanGetter] else [];
      var stat := if e.isStatic then [StaticGetter] else [];
      assert forall i | 0 <= i < |prefix + stat| :: !IsError((prefix + stat)[i]);
      (true, params + prefix + stat)
  }

  /** A public non-void method that expects parameters is still kept as a
      getter, although an error is reported for it, contrary to the
      method's own documentation, which lists a parameterless signature
      among the mandatory validations. */
  lemma ParameterisedGetterIsKept<M, C>(e: Annotated<M, C>)
    requires e.kind == MethodKind && !e.returnsVoid && e.isPublic && e.parameters > 0
    ensures CheckIndexedElement(e).0
    ensures exists i | 0 <= i < |CheckIndexedElement(e).1| :: IsError(CheckIndexedElement(e).1[i])
  {
    var r := CheckIndexedElement(e);
    assert HasParameters in r.1;
    var i :| 0 <= i < |r.1| && r.1[i] == HasParameters;
  }

  /** The warning about a non-bean name and the prefix trimming of
      constant names agree: a kept getter is warned about exactly when
      trimming would leave its name unchanged. */
  lemma BeanWarningAgreesWithTrim<M, C>(e: Annotated<M, C>)
    requires CheckIndexedElement(e).0
    ensures NotBeanGetter in CheckIndexedElement(e).1 <==> TrimPrefix(e.simpleName, true) == e.simpleName
  {
    var t := TrimPrefix(e.simpleName, true);
    if Prefixes[0] <= e.simpleName {
      assert |t| < |e.simpleName|;
    } else if Prefixes[1] <= e.simpleName {
      assert |t| < |e.simpleName|;
    }
  }

  // ------------------------------------------------------------------
  // The class check
  // ------------------------------------------------------------------

  /** An interface a class declares: whether it is a declared (resolved)
      type, and its qualified and simple names. */
  datatype Interface = Interface(declared: bool, qualifiedName: string, simpleName: string)

  /** What the processor sees of an enclosing element. */
  datatype ClassInfo = ClassInfo(isClass: bool, interfaces: seq<Interface>)

  /** `String.equals` handed a `javax.lang.model.element.Name`: a Name is
      not a String, so the answer is false whatever characters the two
      hold. */
  predicate StringEqualsName(s: string, name: string) {
    false
  }

  /** InterfaceIMultiIndexedChecker as written: the declared interfaces
      are visited in order, and the visit answers true at the first
      declared one whose simple name the marker's name does not equal. */
  function CheckerAsWritten(interfaces: seq<Interface>): bool {
    if |interfaces| == 0 then false
    else if interfaces[0].declared && !StringEqualsName(MarkerName, interfaces[0].simpleName) then true
    else CheckerAsWritten(interfaces[1..])
  }

  /** The check the class documents: some declared interface is the
      marker interface. */
  predicate ImplementsMarker(interfaces: seq<Interface>) {
    exists i | 0 <= i < |interfaces| :: interfaces[i].declared && interfaces[i].qualifiedName == MarkerName
  }

  /** The checker as written accepts a class exactly when it declares some
      resolved interface, the marker or any other; so every class the
      documented check accepts passes it too. */
  lemma {:induction false} CheckerAcceptsAnyInterface(interfaces: seq<Interface>)
    ensures CheckerAsWritten(interfaces) <==> exists i | 0 <= i < |interfaces| :: interfaces[i].declared
    ensures ImplementsMarker(interfaces) ==> CheckerAsWritten(interfaces)
  {
    if |interfaces| > 0 {
      var rest := interfaces[1..];
      CheckerAcceptsAnyInterface(rest);
      if i :| 0 <= i < |interfaces| && interfaces[i].declared {
        if !interfaces[0].declared {
          assert rest[i - 1] == interfaces[i];
        }
      }
      if j :| 0 <= j < |rest| && rest[j].declared {
        assert interfaces[j + 1] == rest[j];
      }
    }
  }

  /** A class that declares only java.io.Serializable passes the checker as
      written and fails the documented check, while a class declaring no
      interface fails both. */
  lemma CheckerAsWrittenAdmitsNonMarker()
    ensures var other := [Interface(true, "java.io.Serializable", "Serializable")];
            CheckerAsWritten(other) && !ImplementsMarker(other)
    ensures !CheckerAsWritten([]) && !ImplementsMarker([])
  {
    var other := [Interface(true, "java.io.Serializable", "Serializable")];
    assert other[0].qualifiedName != MarkerName by {
      assert other[0].qualifiedName[0] != MarkerName[0];
    }
  }

  /** Which interface check the processor runs: the checker as the code
      has it, or the check its documentation describes, which makes the
      corrected processor. */
  datatype ClassCheck = AsWritten | Documented

  /** Whether an enclosing element may host indexed getters: it is a class
      and passes the interface check. */
  predicate ClassAccepted(check: ClassCheck, info: ClassInfo) {
    info.isClass
    && match check
       case AsWritten => CheckerAsWritten(info.interfaces)
       case Documented => ImplementsMarker(info.interfaces)
  }

  /** checkClassElement: a cached answer is reused; otherwise the element
      is checked, an error is printed for a class that fails, and the
      answer is cached. Returns the answer, the new cache and whether an
      error was printed. The code runs it with `AsWritten`. */
  function CheckClassElement<C(==)>(check: ClassCheck, classes: C -> ClassInfo, cache: map<C, bool>, c: C): (r: (bool, map<C, bool>, bool))
    ensures c in cache ==> r == (cache[c], cache, false)
    ensures c !in cache ==> r.0 == ClassAccepted(check, classes(c)) && r.1 == cache[c := r.0]
    ensures r.2 <==> c !in cache && classes(c).isClass && !r.0
  {
    if c in cache then (cache[c], cache, false)
    else
      var ok := ClassAccepted(check, classes(c));
      (ok, cache[c := ok], classes(c).isClass && !ok)
  }

  /** With the checker as written, an error is printed for a class exactly
      when it is checked for the first time and declares no resolved
      interface at all; a class declaring only other interfaces is
      accepted silently. */
  lemma ClassErrorAsWritten<C>(classes: C -> ClassInfo, cache: map<C, bool>, c: C)
    ensures CheckClassElement(AsWritten, classes, cache, c).2
        <==> c !in cache && classes(c).isClass
             && forall i | 0 <= i < |classes(c).interfaces| :: !classes(c).interfaces[i].declared
    ensures c !in cache ==>
              (CheckClassElement(AsWritten, classes, cache, c).0
               <==> classes(c).isClass && exists i | 0 <= i < |classes(c).interfaces| :: classes(c).interfaces[i].declared)
  {
    CheckerAcceptsAnyInterface(classes(c).interfaces);
  }

  /** Every cached answer is the answer of the check itself. */
  ghost predicate CheckedSound<C>(check: ClassCheck, classes: C -> ClassInfo, cache: map<C, bool>) {
    forall c | c in cache :: cache[c] == ClassAccepted(check, classes(c))
  }

  /** The cache is invisible: with a sound cache the answer is the check's
      own, the cache stays sound, and an error is printed for a class at
      most once, however often its getters are checked. */
  lemma ClassCacheTransparent<C>(check: ClassCheck, classes: C -> ClassInfo, cache: map<C, bool>, c: C)
    requires CheckedSound(check, classes, cache)
    ensures CheckClassElement(check, classes, cache, c).0 == ClassAccepted(check, classes(c))
    ensures CheckedSound(check, classes, CheckClassElement(check, classes, cache, c).1)
    ensures c in CheckClassElement(check, classes, cache, c).1
    ensures !CheckClassElement(check, classes, CheckClassElement(check, classes, cache, c).1, c).2
  {
  }

  // ------------------------------------------------------------------
  // Grouping the getters by class
  // ------------------------------------------------------------------

  /** The processor's state: accepted getters per enclosing class, and
      the cache of class checks. */
  datatype State<M, C> = State(groups: map<C, set<M>>, checked: map<C, bool>)

  /** Whether an annotated element ends up in the generated enum of its
      class. */
  predicate Indexable<M, C>(check: ClassCheck, classes: C -> ClassInfo, e: Annotated<M, C>) {
    CheckIndexedElement(e).0 && ClassAccepted(check, classes(e.enclosing))
  }

  /** addIndexedElement: a kept getter of an accepted class joins the set
      of its class, which is created on first use; anything else leaves
      the groups as they are. */
  function AddIndexedElement<M(==), C(==)>(check: ClassCheck, classes: C -> ClassInfo, st: State<M, C>, e: Annotated<M, C>): (r: State<M, C>)
    ensures !CheckIndexedElement(e).0 ==> r == st
    ensures CheckedSound(check, classes, st.checked) ==> CheckedSound(check, classes, r.checked)
    ensures CheckedSound(check, classes, st.checked) && !Indexable(check, classes, e) ==> r.groups == st.groups
    ensures CheckedSound(check, classes, st.checked) && Indexable(check, classes, e) ==>
              r.groups.Keys == st.groups.Keys + {e.enclosing}
              && r.groups[e.enclosing] == (if e.enclosing in st.groups then st.groups[e.enclosing] else {}) + {e.id}
              && forall c | c in st.groups && c != e.enclosing :: r.groups[c] == st.groups[c]
  {
    if !CheckIndexedElement(e).0 then st
    else
      var (ok, checked, _) := CheckClassElement(check, classes, st.checked, e.enclosing);
      if !ok then State(st.groups, checked)
      else
        var elements := if e.enclosing in st.groups then st.groups[e.enclosing] else {};
        State(st.groups[e.enclosing := elements + {e.id}], checked)
  }

  /** The first loop of process: every annotated element, in the order the
      round reports them, goes through addIndexedElement. The code runs it
      with `AsWritten`; `Documented` gives the corrected processor. */
  function Process<M(==), C(==)>(check: ClassCheck, classes: C -> ClassInfo, es: seq<Annotated<M, C>>): (r: State<M, C>)
    ensures CheckedSound(check, classes, r.checked)
    ensures forall c | c in r.groups :: r.groups[c] != {}
  {
    if |es| == 0 then State(map[], map[])
    else AddIndexedElement(check, classes, Process(check, classes, es[..|es| - 1]), es[|es| - 1])
  }

  /** The classes that host an indexable element, in any order. */
  ghost function HostClasses<M, C>(check: ClassCheck, classes: C -> ClassInfo, es: seq<Annotated<M, C>>): set<C> {
    set i | 0 <= i < |es| && Indexable(check, classes, es[i]) :: es[i].enclosing
  }

  /** The indexable getters a class hosts, in any order. */
  ghost function HostedGetters<M, C>(check: ClassCheck, classes: C -> ClassInfo, es: seq<Annotated<M, C>>, c: C): set<M> {
    set i | 0 <= i < |es| && Indexable(check, classes, es[i]) && es[i].enclosing == c :: es[i].id
  }

  /** Appending one element to the round adds its class exactly when it
      is indexable. */
  lemma HostClassesSnoc<M, C>(check: ClassCheck, classes: C -> ClassInfo, init: seq<Annotated<M, C>>, e: Annotated<M, C>)
    ensures HostClasses(check, classes, init + [e])
         == HostClasses(check, classes, init) + (if Indexable(check, classes, e) then {e.enclosing} else {})
  {
    var es := init + [e];
    forall x | x in HostClasses(check, classes, es)
      ensures x in HostClasses(check, classes, init) + (if Indexable(check, classes, e) then {e.enclosing} else {})
    {
      var i :| 0 <= i < |es| && Indexable(check, classes, es[i]) && es[i].enclosing == x;
      if i < |init| {
        assert es[i] == init[i];
      }
    }
    forall x | x in HostClasses(check, classes, init) ensures x in HostClasses(check, classes, es) {
      var i :| 0 <= i < |init| && Indexable(check, classes, init[i]) && init[i].enclosing == x;
      assert es[i] == init[i];
    }
    if Indexable(check, classes, e) {
      assert es[|init|] == e;
    }
  }

  /** Appending one element to the round adds its getter to its class's
      getters exactly when it is indexable. */
  lemma HostedGettersSnoc<M, C>(check: ClassCheck, classes: C -> ClassInfo, init: seq<Annotated<M, C>>, e: Annotated<M, C>, c: C)
    ensures HostedGetters(check, classes, init + [e], c)
         == HostedGetters(check, classes, init, c) + (if Indexable(check, classes, e) && e.enclosing == c then {e.id} else {})
  {
    var es := init + [e];
    forall x | x in HostedGetters(check, classes, es, c)
      ensures x in HostedGetters(check, classes, init, c) + (if Indexable(check, classes, e) && e.enclosing == c then {e.id} else {})
    {
      var i :| 0 <= i < |es| && Indexable(check, classes, es[i]) && es[i].enclosing == c && es[i].id == x;
      if i < |init| {
        assert es[i] == init[i];
      }
    }
    forall x | x in HostedGetters(check, classes, init, c) ensures x in HostedGetters(check, classes, es, c) {
      var i :| 0 <= i < |init| && Indexable(check, classes, init[i]) && init[i].enclosing == c && init[i].id == x;
      assert es[i] == init[i];
    }
    if Indexable(check, classes, e) && e.enclosing == c {
      assert es[|init|] == e;
    }
  }

  /** The getters grouped under a class, none when it has no group. */
  function GroupOf<M, C>(groups: map<C, set<M>>, c: C): set<M> {
    if c in groups then groups[c] else {}
  }

  /** Processing groups exactly the indexable getters by their enclosing
      class: a class gets a generated enum iff it hosts an indexable
      getter, and the enum's constants come from exactly those getters. */
  lemma {:induction false} ProcessGroupsIndexable<M, C>(check: ClassCheck, classes: C -> ClassInfo, es: seq<Annotated<M, C>>)
    ensures Process(check, classes, es).groups.Keys == HostClasses(check, classes, es)
    ensures forall c :: GroupOf(Process(check, classes, es).groups, c) == HostedGetters(check, classes, es, c)
  {
    if |es| > 0 {
      var init := es[..|es| - 1];
      var e := es[|es| - 1];
      assert es == init + [e];
      ProcessGroupsIndexable(check, classes, init);
      HostClassesSnoc(check, classes, init, e);
      forall c ensures GroupOf(Process(check, classes, es).groups, c) == HostedGetters(check, classes, es, c) {
        HostedGettersSnoc(check, classes, init, e, c);
      }
    }
  }

  /** As written, the processor writes an enum for exactly the classes
      that declare some resolved interface, whichever it is, and host a
      getter the element check keeps; each enum holds exactly the kept
      getters of its class. */
  lemma InterfacedClassesGetEnums<M, C>(classes: C -> ClassInfo, es: seq<Annotated<M, C>>)
    ensures forall c :: c in Process(AsWritten, classes, es).groups
              <==> classes(c).isClass
                   && (exists j | 0 <= j < |classes(c).interfaces| :: classes(c).interfaces[j].declared)
                   && exists i | 0 <= i < |es| :: es[i].enclosing == c && CheckIndexedElement(es[i]).0
  {
    ProcessGroupsIndexable(AsWritten, classes, es);
    forall c ensures c in HostClasses(AsWritten, classes, es)
                 <==> classes(c).isClass
                      && (exists j | 0 <= j < |classes(c).interfaces| :: classes(c).interfaces[j].declared)
                      && exists i | 0 <= i < |es| :: es[i].enclosing == c && CheckIndexedElement(es[i]).0
    {
      CheckerAcceptsAnyInterface(classes(c).interfaces);
      if c in HostClasses(AsWritten, classes, es) {
        var i :| 0 <= i < |es| && Indexable(AsWritten, classes, es[i]) && es[i].enclosing == c;
      }
      if i :| 0 <= i < |es| && es[i].enclosing == c && CheckIndexedElement(es[i]).0 {
        if ClassAccepted(AsWritten, classes(c)) {
          assert Indexable(AsWritten, classes, es[i]);
        }
      }
    }
  }

  /** With the documented class check, only a class that declares the
      marker interface gets a generated enum, and only for getters the
      element check keeps. */
  lemma OnlyMarkedClassesGetEnums<M, C>(classes: C -> ClassInfo, es: seq<Annotated<M, C>>)
    ensures forall c | c in Process(Documented, classes, es).groups :: classes(c).isClass && ImplementsMarker(classes(c).interfaces)
    ensures forall c, m | c in Process(Documented, classes, es).groups && m in Process(Documented, classes, es).groups[c] ::
              exists i | 0 <= i < |es| :: es[i].id == m && es[i].enclosing == c && CheckIndexedElement(es[i]).0
  {
    var g := Process(Documented, classes, es).groups;
    ProcessGroupsIndexable(Documented, classes, es);
    forall c | c in g ensures classes(c).isClass && ImplementsMarker(classes(c).interfaces) {
      assert c in HostClasses(Documented, classes, es);
      var i :| 0 <= i < |es| && Indexable(Documented, classes, es[i]) && es[i].enclosing == c;
    }
    forall c, m | c in g && m in g[c]
      ensures exists i | 0 <= i < |es| :: es[i].id == m && es[i].enclosing == c && CheckIndexedElement(es[i]).0
    {
      assert GroupOf(g, c) == HostedGetters(Documented, classes, es, c);
      var i :| 0 <= i < |es| && Indexable(Documented, classes, es[i]) && es[i].enclosing == c && es[i].id == m;
    }
  }

  /** A record class declaring only java.io.Serializable, with one public
      getter: the processor as written writes an enum for it, the
      corrected one does not. */
  lemma SerializableRecordGetsEnum(classes: int -> ClassInfo)
    requires classes(0) == ClassInfo(true, [Interface(true, "java.io.Serializable", "Serializable")])
    ensures var es := [Annotated(1, MethodKind, false, true, false, 0, "getName", 0)];
            Process(AsWritten, classes, es).groups == map[0 := {1}]
            && Process(Documented, classes, es).groups == map[]
  {
    var e := Annotated(1, MethodKind, false, true, false, 0, "getName", 0);
    assert [e][..0] == [];
    CheckerAsWrittenAdmitsNonMarker();
    assert ClassAccepted(AsWritten, classes(0)) && !ClassAccepted(Documented, classes(0));
    assert CheckIndexedElement(e).0;
    var st := Process(AsWritten, classes, [e][..0]);
    assert st == State(map[], map[]);
    assert Process(AsWritten, classes, [e]) == AddIndexedElement(AsWritten, classes, st, e);
    assert AddIndexedElement(AsWritten, classes, st, e).groups == map[0 := {} + {1}];
    assert {} + {1} == {1};
  }

  /** The grouping does not depend on the order in which the round reports
      the annotated elements. */
  lemma ProcessIgnoresOrder<M, C>(check: ClassCheck, classes: C -> ClassInfo, es1: seq<Annotated<M, C>>, es2: seq<Annotated<M, C>>)
    requires forall e :: e in es1 <==> e in es2
    ensures Process(check, classes, es1).groups == Process(check, classes, es2).groups
  {
    ProcessGroupsIndexable(check, classes, es1);
    ProcessGroupsIndexable(check, classes, es2);
    SameElementsSameHosts(check, classes, es1, es2);
    SameGroupsEqual(Process(check, classes, es1).groups, Process(check, classes, es2).groups);
  }

  /** Two rounds reporting the same elements have the same hosts, each
      with the same getters. */
  lemma SameElementsSameHosts<M, C>(check: ClassCheck, classes: C -> ClassInfo, es1: seq<Annotated<M, C>>, es2: seq<Annotated<M, C>>)
    requires forall e :: e in es1 <==> e in es2
    ensures HostClasses(check, classes, es1) == HostClasses(check, classes, es2)
    ensures forall c :: HostedGetters(check, classes, es1, c) == HostedGetters(check, classes, es2, c)
  {
    SameMembersSameHosts(check, classes, es1, es2);
    SameMembersSameHosts(check, classes, es2, es1);
  }

  /** Two groupings with the same classes and the same group for each
      class are equal. */
  lemma SameGroupsEqual<M, C>(g1: map<C, set<M>>, g2: map<C, set<M>>)
    requires g1.Keys == g2.Keys
    requires forall c :: GroupOf(g1, c) == GroupOf(g2, c)
    ensures g1 == g2
  {
    forall c | c in g1 ensures g1[c] == g2[c] {
      assert GroupOf(g1, c) == GroupOf(g2, c);
    }
  }

  /** The hosts and their getters depend only on which elements the round
      reports. */
  lemma SameMembersSameHosts<M, C>(check: ClassCheck, classes: C -> ClassInfo, es1: seq<Annotated<M, C>>, es2: seq<Annotated<M, C>>)
    requires forall e :: e in es1 ==> e in es2
    ensures HostClasses(check, classes, es1) <= HostClasses(check, classes, es2)
    ensures forall c :: HostedGetters(check, classes, es1, c) <= HostedGetters(check, classes, es2, c)
  {
    forall c | c in HostClasses(check, classes, es1) ensures c in HostClasses(check, classes, es2) {
      var i :| 0 <= i < |es1| && Indexable(check, classes, es1[i]) && es1[i].enclosing == c;
      assert es1[i] in es2;
      var j :| 0 <= j < |es2| && es2[j] == es1[i];
    }
    forall c, m | m in HostedGetters(check, classes, es1, c) ensures m in HostedGetters(check, classes, es2, c) {
      var i :| 0 <= i < |es1| && Indexable(check, classes, es1[i]) && es1[i].enclosing == c && es1[i].id == m;
      assert es1[i] in es2;
      var j :| 0 <= j < |es2| && es2[j] == es1[i];
    }
  }
}
