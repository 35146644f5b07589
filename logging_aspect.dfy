/**
 * LoggingAspect.logAround: the advice run around each intercepted call.
 * It resolves the caller's address from the current servlet request,
 * classifies the target, puts both into the logging context, logs one
 * line with the redacted argument list, runs the call and, when the call
 * returns, clears the context.
 *
 * The logging context (Log4j's ThreadContext) is one map and the log is
 * the sequence of lines emitted; the wrapped call is an operation on both
 * that either returns a value or fails.
 */
module LoggingAspect {
  import opened Wrappers
  import SensitiveDataFilter

  /** The servlet request, reduced to the address getRemoteAddr reports. */
  datatype Request = Request(remoteAddr: string)

  /**
   * What RequestContextHolder.getRequestAttributes() returns when it is
   * not null: servlet attributes, whose getRequest may be null, or
   * attributes of some other kind.
   */
  datatype RequestAttributes =
    | ServletRequestAttributes(request: Option<Request>)
    | OtherRequestAttributes

  /** The throwables the advice raises itself, and those of the wrapped call. */
  datatype Failure =
    | NullPointerException
    | ClassCastException
    | Raised(exception: string)

  /** What the cast produces: the request, or the throwable raised on the way. */
  datatype Result<T> = Ok(value: T) | Err(failure: Failure)

  /** How a call ends: with a value, or with a throwable that propagates. */
  datatype Outcome<T> = Returned(value: T) | Threw(failure: Failure)

  /** What the advice can observe and change: the logging context and the log. */
  datatype Observed = Observed(context: map<string, string>, log: seq<string>)

  /** A call's outcome and the observable state it leaves. */
  datatype Step<T> = Step(outcome: Outcome<T>, after: Observed)

  // ---------------------------------------------------------------------
  // The pieces of the advice

  /** `sub` occurs in `s` starting at `i`. */
  predicate OccursAt(s: string, sub: string, i: int)
  {
    0 <= i && i + |sub| <= |s| && s[i..i + |sub|] == sub
  }

  /** `s.contains(sub)` */
  ghost predicate Contains(s: string, sub: string)
  {
    exists i :: OccursAt(s, sub, i)
  }

  /** `s.indexOf(sub, from)`: the first occurrence of `sub` at or after `from`. */
  function IndexOf(s: string, sub: string, from: nat): (r: Option<nat>)
    decreases |s| - from
    ensures r.Some? ==> from <= r.value && OccursAt(s, sub, r.value)
    ensures r.Some? ==> forall i :: from <= i < r.value ==> !OccursAt(s, sub, i)
    ensures r.None? ==> forall i :: from <= i ==> !OccursAt(s, sub, i)
  {
    if from + |sub| > |s| then None
    else if s[from..from + |sub|] == sub then Some(from)
    else IndexOf(s, sub, from + 1)
  }

  /** The class type logged for a target: "Controller" exactly when its simple name contains it. */
  function ClassType(simpleName: string): (r: string)
    ensures r == "Controller" <==> Contains(simpleName, "Controller")
    ensures r == "Controller" || r == "Service"
  {
    if IndexOf(simpleName, "Controller", 0).Some? then "Controller" else "Service"
  }

  /**
   * The cast of the request attributes to ServletRequestAttributes and
   * getRequest: null attributes fail at the dereference, attributes of
   * another kind at the cast.
   */
  function ResolveRequest(attributes: Option<RequestAttributes>): (r: Result<Option<Request>>)
    ensures attributes.None? ==> r == Err(NullPointerException)
    ensures attributes == Some(OtherRequestAttributes) ==> r == Err(ClassCastException)
    ensures attributes.Some? && attributes.value.ServletRequestAttributes? ==> r == Ok(attributes.value.request)
  {
    match attributes
    case None => Err(NullPointerException)
    case Some(OtherRequestAttributes) => Err(ClassCastException)
    case Some(ServletRequestAttributes(request)) => Ok(request)
  }

  /** The client IP: the request's remote address, or "N/A" without a request. */
  function ClientIp(request: Option<Request>): (ip: string)
    ensures request.Some? ==> ip == request.value.remoteAddr
    ensures request.None? ==> ip == "N/A"
  {
    if request.Some? then request.value.remoteAddr else "N/A"
  }

  /** The elements of a rendered argument list, separated by ", ". */
  function JoinArgs(args: seq<string>): string
    decreases |args|
  {
    if |args| == 0 then ""
    else if |args| == 1 then args[0]
    else JoinArgs(args[..|args| - 1]) + ", " + args[|args| - 1]
  }

  /** `Arrays.toString(args)`, for arguments already rendered by String.valueOf. */
  function ArraysToString(args: seq<string>): (r: string)
    ensures |r| >= 2 && r[0] == '[' && r[|r| - 1] == ']'
    ensures r[1..|r| - 1] == JoinArgs(args)
  {
    "[" + JoinArgs(args) + "]"
  }

  /** The Args field: the rendered argument list after redaction. */
  function LoggedArgs(args: seq<string>): string
  {
    SensitiveDataFilter.Filter(ArraysToString(args))
  }

  /** The message of `"[{}] IP={} Method={} Class={} Args={}"` with its five parameters. */
  function LogLine(classType: string, clientIp: string, methodName: string, className: string, args: string): (line: string)
    ensures |line| == |classType| + |clientIp| + |methodName| + |className| + |args| + 27
    ensures line[0] == '[' && line[1..1 + |classType|] == classType
    ensures line[|line| - |args|..] == args
  {
    "[" + classType + "] IP=" + clientIp + " Method=" + methodName + " Class=" + className + " Args=" + args
  }

  // ---------------------------------------------------------------------
  // The advice as a value

  /**
   * The state the wrapped call runs in: the context with the two values
   * put into it and the log with the one line appended.
   */
  function Entered(before: Observed, request: Option<Request>, target: string, methodName: string, args: seq<string>): Observed
  {
    var clientIp := ClientIp(request);
    var classType := ClassType(target);
    Observed(
      before.context["clientIP" := clientIp]["classType" := classType],
      before.log + [LogLine(classType, clientIp, methodName, target, LoggedArgs(args))])
  }

  /**
   * logAround from the state `before`, for a call on `target` (the simple
   * class name of getTarget(), `None` for a null target) whose wrapped
   * operation is `proceed`.
   */
  function Advice<T>(
    before: Observed, attributes: Option<RequestAttributes>, target: Option<string>,
    methodName: string, args: seq<string>, proceed: Observed -> Step<T>): (r: Step<T>)
    ensures ResolveRequest(attributes).Err? || target.None? ==> r.outcome.Threw? && r.after == before
    ensures r.outcome.Returned? ==> r.after.context == map[]
  {
    match ResolveRequest(attributes)
    case Err(failure) => Step(Threw(failure), before)
    case Ok(request) =>
      if target.None? then Step(Threw(NullPointerException), before)
      else
        var step := proceed(Entered(before, request, target.value, methodName, args));
        if step.outcome.Returned? then Step(step.outcome, Observed(map[], step.after.log)) else step
  }

  // ---------------------------------------------------------------------
  // What the advice promises

  /**
   * Without servlet request attributes the advice fails before anything is
   * put, logged or run: null attributes at the dereference, attributes of
   * another kind at the cast.
   */
  lemma FailsBeforeProceed<T>(
    before: Observed, attributes: Option<RequestAttributes>, target: Option<string>,
    methodName: string, args: seq<string>, proceed: Observed -> Step<T>)
    ensures attributes.None? ==>
      Advice(before, attributes, target, methodName, args, proceed) == Step(Threw(NullPointerException), before)
    ensures attributes == Some(OtherRequestAttributes) ==>
      Advice(before, attributes, target, methodName, args, proceed) == Step(Threw(ClassCastException), before)
    ensures attributes.Some? && attributes.value.ServletRequestAttributes? && target.None? ==>
      Advice(before, attributes, target, methodName, args, proceed) == Step(Threw(NullPointerException), before)
  {
  }

  /**
   * The wrapped call runs with the client IP and the class type in the
   * context, every other context entry as before, and exactly one new
   * line in the log.
   */
  lemma WrappedCallSees(before: Observed, request: Option<Request>, target: string, methodName: string, args: seq<string>)
    ensures Entered(before, request, target, methodName, args).context["clientIP"] ==
      (if request.Some? then request.value.remoteAddr else "N/A")
    ensures Entered(before, request, target, methodName, args).context["classType"] ==
      (if Contains(target, "Controller") then "Controller" else "Service")
    ensures forall k :: k != "clientIP" && k != "classType" ==>
      (k in Entered(before, request, target, methodName, args).context <==> k in before.context)
    ensures forall k :: k != "clientIP" && k != "classType" && k in before.context ==>
      Entered(before, request, target, methodName, args).context[k] == before.context[k]
    ensures Entered(before, request, target, methodName, args).log ==
      before.log + [LogLine(ClassType(target), ClientIp(request), methodName, target,
        SensitiveDataFilter.Filter(ArraysToString(args)))]
  {
  }

  /**
   * Once the advice reaches the wrapped call, its outcome, value or
   * throwable, is the advice's outcome unchanged; after a return the whole
   * context is empty, after a failure it is what the call left, because
   * clearMap is not reached.
   */
  lemma OutcomePassesThrough<T>(
    before: Observed, request: Option<Request>, target: string,
    methodName: string, args: seq<string>, proceed: Observed -> Step<T>)
    ensures var step := proceed(Entered(before, request, target, methodName, args));
      var r := Advice(before, Some(ServletRequestAttributes(request)), Some(target), methodName, args, proceed);
      r.outcome == step.outcome && r.after.log == step.after.log &&
      (step.outcome.Returned? ==> r.after.context == map[]) &&
      (step.outcome.Threw? ==> r.after.context == step.after.context)
  {
  }

  /** An argument list in which no sensitive key is followed by a separator is logged as rendered. */
  lemma ArgsLoggedVerbatim(args: seq<string>)
    requires forall key, k :: key in SensitiveDataFilter.SensitiveKeys ==>
      !SensitiveDataFilter.KeyThenSeparator(ArraysToString(args), k, key)
    ensures LoggedArgs(args) == ArraysToString(args)
  {
    SensitiveDataFilter.FilterWithoutKeys(ArraysToString(args));
  }

  /** Arrays.toString renders an empty list as "[]" and separates elements by ", ". */
  lemma ArgsRendering()
    ensures ArraysToString([]) == "[]"
    ensures ArraysToString(["u1"]) == "[u1]"
    ensures ArraysToString(["u1", "Alice"]) == "[u1, Alice]"
  {
    assert ["u1", "Alice"][..1] == ["u1"];
  }

  lemma UserControllerIsController()
    ensures ClassType("UserController") == "Controller"
  {
    assert OccursAt("UserController", "Controller", 4);
  }

  lemma CreateUserArgsLetters()
    ensures 'p' !in "[u1, Alice]" && 'P' !in "[u1, Alice]" && 's' !in "[u1, Alice]"
    ensures 'S' !in "[u1, Alice]" && 't' !in "[u1, Alice]" && 'T' !in "[u1, Alice]"
  {
  }

  lemma CreateUserArgsKept()
    ensures LoggedArgs(["u1", "Alice"]) == "[u1, Alice]"
  {
    ArgsRendering();
    CreateUserArgsLetters();
    SensitiveDataFilter.FilterWithoutFirstLetters("[u1, Alice]");
  }

  lemma EnteredLog(before: Observed, request: Option<Request>, target: string, methodName: string, args: seq<string>, line: string)
    requires line == LogLine(ClassType(target), ClientIp(request), methodName, target, LoggedArgs(args))
    ensures Entered(before, request, target, methodName, args).log == before.log + [line]
  {
  }

  /** The line logged for UserController.createUser("u1", "Alice") from 127.0.0.1. */
  lemma CreateUserCallLogged()
    ensures Entered(Observed(map[], []), Some(Request("127.0.0.1")), "UserController", "createUser", ["u1", "Alice"]).log ==
      [LogLine("Controller", "127.0.0.1", "createUser", "UserController", "[u1, Alice]")]
  {
    UserControllerIsController();
    CreateUserArgsKept();
    EnteredLog(Observed(map[], []), Some(Request("127.0.0.1")), "UserController", "createUser", ["u1", "Alice"],
      LogLine("Controller", "127.0.0.1", "createUser", "UserController", "[u1, Alice]"));
  }

  // ---------------------------------------------------------------------
  // The advice as it runs

  /** The aspect together with the logging context and the log it writes to. */
  class Aspect {
    var context: map<string, string>
    var log: seq<string>

    constructor ()
      ensures context == map[] && log == []
    {
      context := map[];
      log := [];
    }

    /** logAround, step by step on the context and the log. */
    method LogAround<T>(
      attributes: Option<RequestAttributes>, target: Option<string>,
      methodName: string, args: seq<string>, proceed: Observed -> Step<T>)
      returns (outcome: Outcome<T>)
      modifies this
      ensures Step(outcome, Observed(context, log)) ==
        Advice(Observed(old(context), old(log)), attributes, target, methodName, args, proceed)
    {
      if attributes.None? {
        return Threw(NullPointerException);
      }
      if attributes.value.OtherRequestAttributes? {
        return Threw(ClassCastException);
      }
      var request := attributes.value.request;
      var clientIp := ClientIp(request);
      if target.None? {
        return Threw(NullPointerException);
      }
      var classType := ClassType(target.value);
      context := context["clientIP" := clientIp];
      context := context["classType" := classType];
      var filtered := SensitiveDataFilter.FilterSensitiveData(ArraysToString(args));
      log := log + [LogLine(classType, clientIp, methodName, target.value, filtered)];
      var step := proceed(Observed(context, log));
      context, log := step.after.context, step.after.log;
      outcome := step.outcome;
      if outcome.Returned? {
        context := map[];
      }
    }
  }

}
