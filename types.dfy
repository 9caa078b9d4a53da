/** Values shared by the command interpreter: result codes, command definitions,
    argument pairs and the one configuration constant the interpreter uses. */
module Types {

  datatype Option<+T> = None | Some(value: T)

  /** A NUL-terminated C string, seen as the characters before its terminator. */
  type CString = s: string | '\0' !in s witness ""

  /** The result codes the interpreter produces or passes through. `Other` stands for any
      code a user command's callback returns (their numbering lives outside this model). */
  datatype Error =
    | NoError            // ERROR_NONE
    | CommandNotFound    // ERROR_COMMAND_NOT_FOUND
    | BufferOverflow     // ERROR_BUFFER_OVERFLOW
    | CouldNotAllocate   // ERROR_FreeRTOS_errCOULD_NOT_ALLOCATE_REQUIRED_MEMORY
    | Other(code: nat)

  /** Which callback a definition carries: the built-in help handler, or a user callback
      identified by an opaque number. */
  datatype Handler = HelpHandler | Callback(id: nat)

  /** struct CommandDefinition: command string, maximum number of arguments (not counting
      the command word), callback and help string. */
  datatype Definition = Definition(name: CString, maxArguments: nat, handler: Handler, help: CString)

  /** struct CommandArgumentPair: a key (the text after "--") and an optional value;
      `None` plays the part of a NULL pointer. */
  datatype Pair = Pair(key: Option<string>, value: Option<string>)

  /** COMMAND_ARGUMENT_LENGTH: longest token handed to a handler. */
  const ArgumentLength: nat := 32

  function Min(a: int, b: int): int { if a <= b then a else b }

  function Max(a: int, b: int): int { if a >= b then a else b }
}
