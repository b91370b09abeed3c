/**
 * What the engine consults but cannot see: PHP's dynamic dispatch, the JSON
 * schema, and the handlers that touch the console or the filesystem. Each is
 * a total function supplied by the caller.
 */
module Environment {
  import opened Wrappers
  import opened Values

  datatype Host = Host(
    /** `is_callable($s)` for a string. */
    isCallable: string -> bool,
    /** `call_user_func($name, $key, $args, $vars)`. */
    invoke: (string, Key, Array, Vars) -> Value,
    /** Does `res/schema.json` accept the descriptor? (`validate`, src/Plugin.php:122-131) */
    valid: Array -> bool,
    /**
     * The handler method named by an action other than `set`, given its
     * resolved arguments and the store; the store it leaves, or None when it
     * throws.
     */
    handle: (string, Array, Vars) -> Option<Vars>)
}
