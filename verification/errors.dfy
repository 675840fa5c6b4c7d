/** Every way the engine rejects its input; each carries what the source's
    exception message names. */
module Errors {

  datatype Error =
    | InvalidDirectiveName(directive: string)           // not a CSP 1.0 directive
    | InvalidSandboxKeyword(value: string)              // not one of the four allow-* tokens
    | InvalidSourceValue(directive: string, value: string)  // neither keyword nor source expression
    | InvalidReportUri(value: string)                   // not an http(s) URL, host or path
    | NoneWithExceptions(directive: string)             // 'none' next to other sources
    | WildcardWithExceptions(directive: string)         // '*' next to other sources
    | InvalidClearOption(kind: string)                  // reset target other than enforce/report/all
    | InvalidAddKind(kind: string)                      // cspAdd role other than enforce/report
    | InvalidRemoveKind(kind: string)                   // cspRemove role other than enforce/report
}
