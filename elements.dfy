/** The part of `javax.lang.model.element` the taglet inspects: the kind of an
    element, its simple or qualified name and its enclosing element, which
    each variant carries inside it. */
module Elements {
  import opened Wrappers

  /** `javax.lang.model.element.NestingKind`. */
  datatype NestingKind = TopLevel | Member | Local | Anonymous {
    /** `NestingKind.isNested()`: every kind but `TOP_LEVEL`. */
    predicate IsNested() {
      this != TopLevel
    }
  }

  datatype Element =
    | ModuleElement(moduleName: string)
    | PackageElement(qualifiedName: string)
    | TypeElement(simpleName: string, nesting: NestingKind, enclosing: Element)
    | VariableElement(simpleName: string, enclosing: Element)
      /** Any other kind: methods, constructors, type parameters, ... */
    | OtherElement(simpleName: string, enclosing: Element)
  {
    predicate IsModuleOrPackage() {
      ModuleElement? || PackageElement?
    }
  }

  /** The shape every element the compiler hands out has: a top-level type
      sits directly in a package, and everything else that is neither a module
      nor a package sits inside a type or a member of one. */
  predicate WellFormed(e: Element) {
    match e
    case ModuleElement(_) => true
    case PackageElement(_) => true
    case TypeElement(_, nesting, enclosing) =>
      if nesting.IsNested() then !enclosing.IsModuleOrPackage() && WellFormed(enclosing)
      else enclosing.PackageElement?
    case VariableElement(_, enclosing) => !enclosing.IsModuleOrPackage() && WellFormed(enclosing)
    case OtherElement(_, enclosing) => !enclosing.IsModuleOrPackage() && WellFormed(enclosing)
  }

  /** `e` followed by its enclosing elements, innermost first. */
  function Ancestors(e: Element): (r: seq<Element>)
    ensures r != [] && r[0] == e
  {
    match e
    case ModuleElement(_) => [e]
    case PackageElement(_) => [e]
    case TypeElement(_, _, enclosing) => [e] + Ancestors(enclosing)
    case VariableElement(_, enclosing) => [e] + Ancestors(enclosing)
    case OtherElement(_, enclosing) => [e] + Ancestors(enclosing)
  }

  predicate IsTopLevelType(t: Element) {
    t.TypeElement? && t.nesting == TopLevel
  }

  /** `Elements.getPackageOf(e).getQualifiedName()`: the qualified name of the
      package `e` is declared in; `None` where `getPackageOf` gives null (a
      module, or an element directly inside one). */
  function PackageOf(e: Element): Option<string> {
    match e
    case ModuleElement(_) => None
    case PackageElement(q) => Some(q)
    case TypeElement(_, _, enclosing) => PackageOf(enclosing)
    case VariableElement(_, enclosing) => PackageOf(enclosing)
    case OtherElement(_, enclosing) => PackageOf(enclosing)
  }

  /** Every well-formed element below the package level lies inside exactly
      one top-level type, and its package is the one that type sits in. */
  lemma {:induction false} TopLevelTypeOf(e: Element)
    requires WellFormed(e) && !e.IsModuleOrPackage()
    ensures exists t :: t in Ancestors(e) && IsTopLevelType(t)
    ensures forall t :: t in Ancestors(e) && IsTopLevelType(t) ==>
              t.enclosing.PackageElement? && PackageOf(e) == Some(t.enclosing.qualifiedName)
              && forall u :: u in Ancestors(e) && IsTopLevelType(u) ==> u == t
  {
    if IsTopLevelType(e) {
      assert Ancestors(e) == [e, e.enclosing];
    } else {
      TopLevelTypeOf(e.enclosing);
      assert Ancestors(e) == [e] + Ancestors(e.enclosing);
    }
  }
}
