/** The errors the program throws from its core. */
module Errors {
  import opened Json

  datatype Error =
    /** "Invalid --include value": the token, or its scope, is empty. The
        untrimmed token is reported. */
    | InvalidIncludeValue(token: string)
    /** "Invalid include target": the scope is not `default`, `publish`
        or an `@scope`. */
    | InvalidIncludeTarget(scope: string)
    /** An include for which no registry was discovered, with the hint the
        program appends for that scope. */
    | UnresolvedInclude(scope: string, hint: string)
    /** The URL parser rejected a discovered registry value. */
    | InvalidRegistryUrl(registryUrl: Value)
}
