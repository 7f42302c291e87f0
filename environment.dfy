/** The process environment, passed in as a value instead of read with `os.Getenv`. */
module Environment {

  type Env = map<string, string>

  /** `os.Getenv(key)`: the variable's value, or the empty string when it is unset. */
  function Getenv(env: Env, key: string): (value: string)
    ensures key !in env ==> value == ""
    ensures key in env ==> value == env[key]
  {
    if key in env then env[key] else ""
  }
}
