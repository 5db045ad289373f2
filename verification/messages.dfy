/** The conversation units the agent exchanges. Every message carries a textual payload;
    a tool result also records the name of the tool that produced it. */
module Messages {

  datatype Message =
    | Human(content: string)                   // HumanMessage
    | AI(content: string)                      // AIMessage
    | Function(content: string, name: string)  // FunctionMessage
    | System(content: string)                  // SystemMessage
}
