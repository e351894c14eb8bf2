/** `review_resume`: one request that asks the service to judge a résumé for
    a position, and the text that comes back (or the error, behind a fixed
    prefix). */
module Evaluator {
  import opened Outcomes
  import opened Llm

  const DefaultModel: string := "gpt-4o"
  const DefaultPosition: string := "컴퓨터 비전 머신러닝 엔지니어"
  const ReviewErrorPrefix: string := "이력서 리뷰 중 오류가 발생했습니다: "

  /** The user message is this text, the résumé, then a newline and eight spaces. */
  const PromptHead: string := "\n다음은 이력서 내용입니다. 이 이력서를 채용 담당자의 관점에서 정량적으로 평가한 후 서류 합격 여부를 엄격하게 판단해주세요.\n\n이력서 내용:\n"
  const PromptTail: string := "\n        "

  /** The system message names the position between these two texts. */
  const SystemHead: string := "당신은 액트노바라는 소규모 스타트업 "
  const SystemTail: string := "(으)로서 뛰어난 동료를 구하고 있습니다. 이력서를 보고 서류 통과 여부를 결정하고 그 이유를 제시해주세요."

  function ReviewPrompt(resumeText: string): string
  {
    PromptHead + resumeText + PromptTail
  }

  function ReviewSystem(position: string): string
  {
    SystemHead + position + SystemTail
  }

  function ReviewRequest(resumeText: string, model: string, position: string): Request
  {
    Request(model, ReviewSystem(position), ReviewPrompt(resumeText))
  }

  /** `review_resume(resume_text, model, position)` with the service `llm`. */
  function ReviewResume(resumeText: string, model: string, position: string, llm: Request -> Reply): string
  {
    Render(llm(ReviewRequest(resumeText, model, position)), ReviewErrorPrefix)
  }

  /** `review_resume(resume_text)` with its default model and position. */
  function ReviewResumeDefaults(resumeText: string, llm: Request -> Reply): string
  {
    ReviewResume(resumeText, DefaultModel, DefaultPosition, llm)
  }

  /** The request carries exactly its inputs: the model as given, the résumé
      text recoverable from the user message and the position from the system
      message. */
  lemma ReviewRequestCarries(resumeText: string, model: string, position: string)
    ensures var q := ReviewRequest(resumeText, model, position);
      q.model == model &&
      Embedded(q.user, PromptHead, PromptTail) == Some(resumeText) &&
      Embedded(q.system, SystemHead, SystemTail) == Some(position)
  {
    EmbeddedRoundTrip(PromptHead, resumeText, PromptTail);
    EmbeddedRoundTrip(SystemHead, position, SystemTail);
  }

  /** Different inputs make different requests. */
  lemma ReviewRequestInjective(t1: string, m1: string, p1: string, t2: string, m2: string, p2: string)
    requires ReviewRequest(t1, m1, p1) == ReviewRequest(t2, m2, p2)
    ensures t1 == t2 && m1 == m2 && p1 == p2
  {
    ReviewRequestCarries(t1, m1, p1);
    ReviewRequestCarries(t2, m2, p2);
  }

  /** Called with its defaults, `review_resume` asks `gpt-4o` and names the
      computer-vision position in the system message. */
  lemma ReviewDefaultsRequest(resumeText: string)
    ensures var q := ReviewRequest(resumeText, DefaultModel, DefaultPosition);
      q.model == "gpt-4o" && Embedded(q.system, SystemHead, SystemTail) == Some("컴퓨터 비전 머신러닝 엔지니어") &&
      Embedded(q.user, PromptHead, PromptTail) == Some(resumeText)
  {
    ReviewRequestCarries(resumeText, DefaultModel, DefaultPosition);
  }

  /** The result is the reply text when the call succeeds, and otherwise the
      fixed prefix followed by the error text. */
  lemma ReviewResumeOutcome(resumeText: string, model: string, position: string, llm: Request -> Reply)
    ensures var reply := llm(ReviewRequest(resumeText, model, position));
      var r := ReviewResume(resumeText, model, position, llm);
      (reply.Answer? ==> r == reply.content) &&
      (reply.Fault? ==> Embedded(r, ReviewErrorPrefix, "") == Some(reply.message))
  {
    var reply := llm(ReviewRequest(resumeText, model, position));
    if reply.Fault? {
      EmbeddedRoundTrip(ReviewErrorPrefix, reply.message, "");
      assert ReviewErrorPrefix + reply.message + "" == ReviewErrorPrefix + reply.message;
    }
  }
}
