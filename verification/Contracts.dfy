/** The request, response and event values that pass between the components. */
module Contracts {
  import opened Prelude

  datatype Role = System | User | Assistant

  datatype Message = Message(role: Role, content: string)

  datatype TokenUsage = TokenUsage(promptTokens: nat, completionTokens: nat, totalTokens: nat)

  datatype UnifiedResponse = UnifiedResponse(
    content: string,
    model: string,
    usage: TokenUsage,
    providerId: string,
    latencyMs: nat,
    upstreamId: Option<string>)

  datatype StreamChunk = StreamChunk(delta: string, finished: bool, usage: Option<TokenUsage>)

  datatype CostEvent = CostEvent(timestampMs: nat, providerId: string, model: string, costUsd: real)
}
